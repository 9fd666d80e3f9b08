/**
 Operators whose working width does not fit 32 bits (Support/lib/IPInt.cpp:47-72): the width, a sum of
 two widths or of a width and a shift amount, is cut, and with it both operands.  For a shift small
 numbers are enough to get there, since the amount is a value.  For each operator: exactly when the
 result is right, and numbers for which it is not.
 */
module IPIntWidths {
  import opened Common
  import opened Arithmetic
  import opened FixedWidth
  import opened IPInts
  import opened IPIntAlgorithms

  // ----- what cutting the operands leaves -----

  lemma ModLess(v: int, k: int, m: int)
    requires m > 0
    ensures (v - k * m) % m == v % m
  {
    ModShift(v - k * m, k, m);
  }

  lemma DropTopBits(bits: nat, top: nat, low: nat)
    requires top >= low
    ensures (bits - Pow2(top)) % Pow2(low) == bits % Pow2(low)
  {
    Pow2Add(top - low, low);
    ModLess(bits, Pow2(top - low), Pow2(low));
  }

  /** Cutting keeps the low bits. */
  lemma {:induction false} TruncBits(a: APInt, width: nat)
    requires 1 <= width <= a.width
    ensures Trunc(a, width).bits == a.bits % Pow2(width)
    decreases a.width
  {
    if a.width == width {
      ModOfSmall(a.bits, Pow2(width));
    } else {
      TruncBits(DropTop(a), width);
      if Negative(a) {
        DropTopBits(a.bits, a.width - 1, width);
      }
    }
  }

  /** The amount the shift is given, for a non-negative one. */
  lemma AmountBits(r: APInt, width: nat)
    requires width >= 1 && Signed(r) >= 0
    ensures SextOrTrunc(r, width).bits == Signed(r) % Pow2(width)
  {
    if width >= r.width {
      Pow2Monotone(r.width, width);
      ModOfSmall(r.bits, Pow2(width));
    } else {
      TruncBits(r, width);
    }
  }

  /** An integer's sign as the shifts leave it. */
  function SignOf(v: int): int {
    if v < 0 then -1 else 0
  }

  // ----- right shifts -----

  /** Halving n times leaves the sign alone exactly when the number fits n + 1 bits. */
  lemma HalvedIsSign(v: int, n: nat)
    ensures Halved(v, n) == SignOf(v) <==> Fits(v, n + 1)
    ensures Halved(v, n) < 0 <==> v < 0
  {
    HalvedIsFloor(v, n);
    FloorSign(v, Halved(v, n), Pow2(n));
  }

  lemma FloorSign(v: int, h: int, p: int)
    requires p >= 1 && h * p <= v < (h + 1) * p
    ensures (h == if v < 0 then -1 else 0) <==> -p <= v < p
    ensures h < 0 <==> v < 0
  {
    if h >= 1 {
      MulMonotone(1, h, p);
    } else if h <= -2 {
      MulMonotone(h + 1, -1, p);
    }
  }

  /** When a right shift leaves a given sign. */
  lemma AshrIsSign(a: APInt, amount: nat, sign: int)
    requires sign == 0 || sign == -1
    ensures Signed(Ashr(a, amount)) == sign
       <==> Negative(a) == (sign == -1) && amount >= SignificantBits(a) - 1
  {
    if amount >= a.width {
      AllShiftedOut(a, amount);
    } else {
      RightShiftExact(a, amount);
      HalvedIsSign(Signed(a), amount);
      SignificantIsMinimal(a, amount + 1);
    }
  }

  /** Beyond its width a number has nothing but its sign. */
  lemma ShiftedToSign(l: IPInt, b: nat)
    requires b >= l.width - 1
    ensures Halved(Signed(l), b) == SignOf(Signed(l))
  {
    SignedFits(l);
    FitsMonotone(Signed(l), l.width, b + 1);
    HalvedIsSign(Signed(l), b);
  }

  /** A right shift of any amount halves that many times. */
  lemma AshrIsHalved(a: APInt, amount: nat)
    ensures Signed(Ashr(a, amount)) == Halved(Signed(a), amount)
  {
    if amount >= a.width {
      AllShiftedOut(a, amount);
      SignedFits(a);
      FitsMonotone(Signed(a), a.width, amount + 1);
      HalvedIsSign(Signed(a), amount);
    } else {
      RightShiftExact(a, amount);
    }
  }

  lemma {:induction false} HalvedBits(v: int, n: nat, k: nat)
    ensures BitOf(Halved(v, n), k) == BitOf(v, n + k)
    decreases n
  {
    if n > 0 {
      HalvedBits(v / 2, n - 1, k);
    }
  }

  function BitFrom(v: int, n: nat, k: nat): bool {
    BitOf(v, n + k)
  }

  /** Up to bit `last`, two numbers agree from bit n of the one and bit m of the other on. */
  predicate BitsAgree(v: int, n: nat, u: int, m: nat, last: nat) {
    forall k | 0 <= k <= last :: BitFrom(v, n, k) == BitFrom(u, m, k)
  }

  /** Agreement up to the longer width is agreement for good. */
  lemma HalvedAgree(a: APInt, n: nat, b: APInt, m: nat, last: nat)
    requires last >= a.width && last >= b.width
    ensures Halved(Signed(a), n) == Halved(Signed(b), m) <==> BitsAgree(Signed(a), n, Signed(b), m, last)
  {
    var v, u := Signed(a), Signed(b);
    if Halved(v, n) == Halved(u, m) {
      forall k | 0 <= k <= last ensures BitFrom(v, n, k) == BitFrom(u, m, k) {
        HalvedBits(v, n, k);
        HalvedBits(u, m, k);
      }
    }
    if BitsAgree(v, n, u, m, last) {
      forall k: nat ensures BitOf(Halved(v, n), k) == BitOf(Halved(u, m), k) {
        HalvedBits(v, n, k);
        HalvedBits(u, m, k);
        if k > last {
          SignBits(a, n, k, last);
          SignBits(b, m, k, last);
        }
        assert BitFrom(v, n, Min(k, last)) == BitFrom(u, m, Min(k, last));
      }
      BitsDetermine(Halved(v, n), Halved(u, m));
    }
  }

  /** Above its width a number repeats its sign. */
  lemma SignBits(a: APInt, n: nat, k: nat, last: nat)
    requires k >= last >= a.width
    ensures BitOf(Signed(a), n + k) == BitOf(Signed(a), n + last)
  {
    SignedFits(a);
    BitsAbove(Signed(a), a.width - 1, n + k);
    BitsAbove(Signed(a), a.width - 1, n + last);
  }

  /** The operands as they reach a right shift: the low bits of the number, the low bits of the amount. */
  function CutNumber(l: IPInt, r: IPInt): APInt
    requires Defined(l, r, Rshift)
  {
    SextOrTrunc(l, WidthUsed(l, r, Rshift))
  }

  function CutAmount(l: IPInt, r: IPInt): nat
    requires Defined(l, r, Rshift) && Signed(r) >= 0
  {
    Signed(r) % Pow2(WidthUsed(l, r, Rshift))
  }

  /** What they leave is what the whole operands would leave, bit by bit. */
  predicate BitsSurvive(l: IPInt, r: IPInt)
    requires Defined(l, r, Rshift) && Signed(r) >= 0
  {
    BitsAgree(Signed(CutNumber(l, r)), CutAmount(l, r), Signed(l), Signed(r), Max(l.width, CutNumber(l, r).width))
  }

  lemma CutRightShift(l: IPInt, r: IPInt)
    requires Defined(l, r, Rshift) && Signed(r) >= 0
    ensures Signed(Binop(l, r, Rshift)) == Halved(Signed(CutNumber(l, r)), CutAmount(l, r))
  {
    var w := WidthUsed(l, r, Rshift);
    AmountBits(r, w);
    ResizedWidth(l, w);
    ResizedWidth(r, w);
    AshrIsHalved(SextOrTrunc(l, w), Signed(r) % Pow2(w));
  }

  /** Bit by bit, a right shift by any non-negative amount. */
  lemma RightShiftBitwise(l: IPInt, r: IPInt)
    requires Defined(l, r, Rshift) && Signed(r) >= 0
    ensures Signed(Binop(l, r, Rshift)) == Meaning(Rshift, Signed(l), Signed(r)) <==> BitsSurvive(l, r)
  {
    var cut := CutNumber(l, r);
    CutRightShift(l, r);
    HalvedAgree(cut, CutAmount(l, r), l, Signed(r), Max(l.width, cut.width));
  }

  /** The cut number has kept the sign, and the cut amount leaves nothing but it. */
  predicate SignSurvives(l: IPInt, r: IPInt)
    requires Defined(l, r, Rshift) && Signed(r) >= 0
  {
    Negative(CutNumber(l, r)) == Negative(l) && CutAmount(l, r) >= SignificantBits(CutNumber(l, r)) - 1
  }

  /** When the amount reaches the number's width, two comparisons decide. */
  lemma RightShiftToSign(l: IPInt, r: IPInt)
    requires Defined(l, r, Rshift) && Signed(r) >= l.width - 1
    ensures Signed(Binop(l, r, Rshift)) == Meaning(Rshift, Signed(l), Signed(r)) <==> SignSurvives(l, r)
  {
    CutRightShift(l, r);
    ShiftedToSign(l, Signed(r));
    AshrIsHalved(CutNumber(l, r), CutAmount(l, r));
    AshrIsSign(CutNumber(l, r), CutAmount(l, r), SignOf(Signed(l)));
  }

  /** It does reach it whenever the width is cut, for every number of at most 2^31 bits. */
  lemma CutAmountIsLarge(l: IPInt, r: IPInt)
    requires Signed(r) >= 0 && !WidthHolds(l, r, Rshift) && l.width <= WIDTH_LIMIT / 2
    ensures Signed(r) >= l.width - 1
  {
    MagnitudeIsAbs(r);
  }

  /**
   A right shift by a non-negative amount is exact if and only if its width fits 32 bits, or the cut
   operands pass a test: two comparisons where the amount reaches the number's width, which is every
   cut shift of a number of at most 2^31 bits, and otherwise a comparison of bits.
   */
  lemma RightShiftExactly(l: IPInt, r: IPInt)
    requires Defined(l, r, Rshift) && Signed(r) >= 0
    ensures Signed(Binop(l, r, Rshift)) == Meaning(Rshift, Signed(l), Signed(r))
       <==> WidthHolds(l, r, Rshift) || if Signed(r) >= l.width - 1 then SignSurvives(l, r) else BitsSurvive(l, r)
    ensures !WidthHolds(l, r, Rshift) && l.width <= WIDTH_LIMIT / 2 ==> Signed(r) >= l.width - 1
  {
    if WidthHolds(l, r, Rshift) {
      BinopExact(l, r, Rshift);
    } else {
      if l.width <= WIDTH_LIMIT / 2 {
        CutAmountIsLarge(l, r);
      }
      if Signed(r) >= l.width - 1 {
        RightShiftToSign(l, r);
      } else {
        RightShiftBitwise(l, r);
      }
    }
  }

  /** Where the cut width still holds the amount, a number of more bits than the amount never shifts right. */
  lemma WideCutIsWrong(l: IPInt, r: IPInt)
    requires Defined(l, r, Rshift) && 0 <= Signed(r) < l.width - 1 && l.width < WIDTH_LIMIT
    requires !WidthHolds(l, r, Rshift) && WidthUsed(l, r, Rshift) >= 32
    ensures Signed(Binop(l, r, Rshift)) != Meaning(Rshift, Signed(l), Signed(r))
  {
    var w, b := WidthUsed(l, r, Rshift), Signed(r);
    var cut := CutNumber(l, r);
    MagnitudeIsAbs(r);
    CutWidth(l, r, Rshift);
    LimitIsPow2();
    Pow2Monotone(32, w);
    ModOfSmall(b, Pow2(w));
    CutRightShift(l, r);
    ResizedWidth(l, w);
    SignedFits(cut);
    FitsMonotone(Signed(cut), w, b + 1);
    HalvedIsSign(Signed(cut), b);
    HalvedIsSign(Signed(l), b);
    SignificantIsMinimal(l, b + 1);
  }

  // ----- left shifts -----

  /** A non-zero number shifted left by n needs n more bits. */
  lemma ShiftedNeedsWidth(l: IPInt, n: nat, width: nat)
    requires Signed(l) != 0 && 1 <= width < l.width + n
    ensures !Fits(Signed(l) * Pow2(n), width)
  {
    var v := Signed(l);
    if Fits(v * Pow2(n), width) {
      FitsMonotone(v * Pow2(n), width, l.width + n - 1);
      if l.width >= 2 {
        ScaledBack(v, l.width - 1, n);
        SignificantIsMinimal(l, l.width - 1);
      }
    }
  }

  lemma OneMore(p: int, q: int)
    ensures (-p - 1) * q == -(p * q) - q
  {
  }

  lemma ScaledBack(v: int, width: nat, n: nat)
    requires width >= 1 && Fits(v * Pow2(n), width + n)
    ensures Fits(v, width)
  {
    var p, q := Pow2(width - 1), Pow2(n);
    Pow2Add(width - 1, n);
    if v >= p {
      MulMonotone(p, v, q);
    } else if v < -p {
      MulMonotone(v, -p - 1, q);
      OneMore(p, q);
    }
  }

  lemma ZeroStaysZero(l: IPInt, width: nat, amount: nat)
    requires Signed(l) == 0 && width >= 1
    ensures SextOrTrunc(l, width).width == width && Signed(Shl(SextOrTrunc(l, width), amount)) == 0
  {
    Pow2Monotone(0, width - 1);
    SextOrTruncKeeps(l, width);
    ResizedWidth(l, width);
    WrappedFits(0, width);
    assert SextOrTrunc(l, width).bits == 0;
  }

  lemma CutWidth(l: IPInt, r: IPInt, op: BinOp)
    requires !WidthHolds(l, r, op)
    ensures WidthUsed(l, r, op) <= FullWidth(l, r, op) - WIDTH_LIMIT
  {
    var full := FullWidth(l, r, op);
    ModShift(full - WIDTH_LIMIT, 1, WIDTH_LIMIT);
    ModAtMost(full - WIDTH_LIMIT, WIDTH_LIMIT);
  }

  /** A left shift is exact if and only if its width fits 32 bits, or the number is zero. */
  lemma LeftShiftExactly(l: IPInt, r: IPInt)
    requires Defined(l, r, Lshift) && Signed(r) >= 0
    ensures Signed(Binop(l, r, Lshift)) == Meaning(Lshift, Signed(l), Signed(r))
       <==> WidthHolds(l, r, Lshift) || Signed(l) == 0
  {
    var w := WidthUsed(l, r, Lshift);
    if WidthHolds(l, r, Lshift) {
      BinopExact(l, r, Lshift);
    } else if Signed(l) == 0 {
      ZeroStaysZero(l, w, SextOrTrunc(r, w).bits);
    } else {
      MagnitudeIsAbs(r);
      CutWidth(l, r, Lshift);
      ShiftedNeedsWidth(l, Signed(r), w);
      LeftShiftFits(l, r);
    }
  }

  lemma LeftShiftFits(l: IPInt, r: IPInt)
    requires Defined(l, r, Lshift)
    ensures Fits(Signed(Binop(l, r, Lshift)), WidthUsed(l, r, Lshift))
  {
    var w := WidthUsed(l, r, Lshift);
    ResizedWidth(l, w);
    SignedFits(Shl(SextOrTrunc(l, w), SextOrTrunc(r, w).bits));
  }

  // ----- shifts that return their number -----

  lemma MultipleMod(k: int, q: int, m: int, n: int)
    requires m > 0 && n == q * m
    ensures (k * n) % m == 0
  {
    assert k * n == (k * q) * m;
    ModShift(0, k * q, m);
  }

  lemma LowBitsOfLimit(k: int, width: nat)
    requires width <= 32
    ensures (k * WIDTH_LIMIT) % Pow2(width) == 0
  {
    Pow2Add(32 - width, width);
    LimitIsPow2();
    MultipleMod(k, Pow2(32 - width), Pow2(width), WIDTH_LIMIT);
  }

  lemma LimitIsPow2()
    ensures Pow2(32) == WIDTH_LIMIT
  {
    Pow2Add(16, 16);
    Pow2Add(8, 8);
    assert Pow2(8) == 256;
  }

  lemma LimitVanishes(l: IPInt, r: IPInt, k: nat, op: BinOp)
    requires Shifts(op) && l.width < WIDTH_LIMIT && Signed(r) == k * WIDTH_LIMIT
    ensures WidthUsed(l, r, op) == l.width
  {
    MagnitudeIsAbs(r);
    ModShift(l.width, k, WIDTH_LIMIT);
    ModOfSmall(l.width, WIDTH_LIMIT);
  }

  /** Shifting a number of at most 32 bits by a multiple of 2^32, in either direction, returns it. */
  lemma ShiftByLimitIsIdentity(l: IPInt, r: IPInt, k: nat)
    requires l.width <= 32 && Signed(r) == k * WIDTH_LIMIT
    ensures Defined(l, r, Lshift) && Signed(Binop(l, r, Lshift)) == Signed(l)
    ensures Defined(l, r, Rshift) && Signed(Binop(l, r, Rshift)) == Signed(l)
  {
    var w := l.width;
    LimitVanishes(l, r, k, Lshift);
    LimitVanishes(l, r, k, Rshift);
    AmountBits(r, w);
    LowBitsOfLimit(k, w);
    ShiftByZero(l);
  }

  lemma ShiftByZero(l: APInt)
    ensures SextOrTrunc(l, l.width) == l
    ensures Signed(Shl(l, 0)) == Signed(l) && Signed(Ashr(l, 0)) == Signed(l)
  {
    ModOfSmall(l.bits, Pow2(l.width));
    SignedFits(l);
    WrappedFits(Signed(l), l.width);
  }

  // ----- sums and differences -----

  lemma TurnsBetween(bits: int, low: int, j: int, i: int, m: int) returns (k: int)
    requires m > 0 && low == bits % m
    ensures low - i * m == (bits - j * m) + k * m
  {
    var q := bits / m;
    assert bits == q * m + low;
    k := j - q - i;
    Regroup(q, j, i, m);
  }

  lemma Regroup(q: int, j: int, i: int, m: int)
    ensures (j - q - i) * m == j * m - q * m - i * m
  {
  }

  lemma SignedAsTurns(a: APInt, turns: int)
    requires turns == if Negative(a) then Pow2(a.width) else 0
    ensures Signed(a) == a.bits - turns
  {
  }

  /** The value of a pattern and of its low bits differ by whole turns of the lower width. */
  lemma TruncTurns(a: APInt, width: nat) returns (k: int)
    requires 1 <= width < a.width
    ensures Signed(Trunc(a, width)) == Signed(a) + k * Pow2(width)
  {
    var t, m, p := Trunc(a, width), Pow2(width), Pow2(a.width - width);
    TruncBits(a, width);
    Pow2Add(a.width - width, width);
    var j, i := if Negative(a) then p else 0, if Negative(t) then 1 else 0;
    SignedAsTurns(a, j * m);
    SignedAsTurns(t, i * m);
    k := TurnsBetween(a.bits, t.bits, j, i, m);
  }

  lemma ResizedTurns(a: APInt, width: nat) returns (k: int)
    requires width >= 1
    ensures Signed(SextOrTrunc(a, width)) == Signed(a) + k * Pow2(width)
  {
    if width >= a.width {
      ExtensionKeeps(a, width);
      k := 0;
    } else {
      k := TruncTurns(a, width);
    }
  }

  /** Saturating at a width yields v exactly when the number saturated is v and fits, given they differ by whole turns. */
  lemma SaturatedIs(x: int, v: int, k: int, width: nat)
    requires width >= 1 && x == v + k * Pow2(width) && -2 * Pow2(width - 1) <= x < 2 * Pow2(width - 1)
    ensures Signed(Saturated(x, width)) == v <==> Fits(v, width) && Fits(x, width)
  {
    var h := Pow2(width - 1);
    WrappedFits(-h, width);
    WrappedFits(h - 1, width);
    if Fits(x, width) {
      WrappedFits(x, width);
    }
    OneTurn(x, v, k, h);
  }

  lemma OneTurn(x: int, v: int, k: int, h: int)
    requires h >= 1 && x == v + k * (2 * h)
    ensures -h <= v < h && -h <= x < h ==> x == v
    ensures h <= x < 2 * h ==> v != h - 1
    ensures -2 * h <= x < -h ==> v != -h
  {
    MulSign(k, 2 * h);
  }

  /** The operands of an addition or subtraction as they reach it, combined. */
  function CutSum(l: IPInt, r: IPInt, op: BinOp): int
    requires (op.Add? || op.Sub?) && Defined(l, r, op)
  {
    var w := WidthUsed(l, r, op);
    if op.Add? then Signed(SextOrTrunc(l, w)) + Signed(SextOrTrunc(r, w))
    else Signed(SextOrTrunc(l, w)) - Signed(SextOrTrunc(r, w))
  }

  lemma CutSumTurns(l: IPInt, r: IPInt, op: BinOp) returns (k: int)
    requires (op.Add? || op.Sub?) && Defined(l, r, op)
    ensures CutSum(l, r, op) == Meaning(op, Signed(l), Signed(r)) + k * Pow2(WidthUsed(l, r, op))
  {
    var w := WidthUsed(l, r, op);
    var i := ResizedTurns(l, w);
    var j := ResizedTurns(r, w);
    k := if op.Add? then i + j else i - j;
    Distribute(i, j, Pow2(w));
  }

  lemma Distribute(i: int, j: int, m: int)
    ensures (i + j) * m == i * m + j * m && (i - j) * m == i * m - j * m
  {
  }

  /**
   A sum or difference is exact if and only if it fits the width used, and so does that of the operands
   as they were cut; while the width fits 32 bits both hold.
   */
  lemma SumExactly(l: IPInt, r: IPInt, op: BinOp)
    requires (op.Add? || op.Sub?) && Defined(l, r, op)
    ensures Signed(Binop(l, r, op)) == Meaning(op, Signed(l), Signed(r))
       <==> Fits(Meaning(op, Signed(l), Signed(r)), WidthUsed(l, r, op)) && Fits(CutSum(l, r, op), WidthUsed(l, r, op))
    ensures WidthHolds(l, r, op) ==> Signed(Binop(l, r, op)) == Meaning(op, Signed(l), Signed(r))
  {
    var w := WidthUsed(l, r, op);
    var k := CutSumTurns(l, r, op);
    CutSumAt(l, r, op);
    SaturatedIs(CutSum(l, r, op), Meaning(op, Signed(l), Signed(r)), k, w);
    if WidthHolds(l, r, op) {
      BinopExact(l, r, op);
    }
  }

  lemma CutSumAt(l: IPInt, r: IPInt, op: BinOp)
    requires (op.Add? || op.Sub?) && Defined(l, r, op)
    ensures var w, x := WidthUsed(l, r, op), CutSum(l, r, op);
            && -2 * Pow2(w - 1) <= x < 2 * Pow2(w - 1)
            && Signed(Binop(l, r, op)) == Signed(Saturated(x, w))
  {
    var w := WidthUsed(l, r, op);
    ResizedWidth(l, w);
    ResizedWidth(r, w);
    SignedFits(SextOrTrunc(l, w));
    SignedFits(SextOrTrunc(r, w));
  }

  // ----- products -----

  /** A non-zero number is at least a quarter of its modulus. */
  lemma MagnitudeAtLeast(a: IPInt)
    requires Signed(a) != 0
    ensures 4 * Abs(Signed(a)) >= Pow2(a.width)
  {
    if a.width >= 2 {
      SignificantIsMinimal(a, a.width - 1);
    }
  }

  lemma ProductAtLeast(x: int, y: int, p: int, q: int)
    requires p >= 0 && q >= 0 && 4 * Abs(x) >= p && 4 * Abs(y) >= q
    ensures 16 * Abs(x * y) >= p * q
  {
    var i, j := 4 * Abs(x), 4 * Abs(y);
    MulMonotone(p, i, q);
    MulMonotone(q, j, i);
    assert i * j == 16 * (Abs(x) * Abs(y));
    MulNeg(x, y);
    assert Abs(x) * Abs(y) == Abs(x * y);
  }

  lemma ProductNeedsWidth(l: IPInt, r: IPInt, width: nat)
    requires Signed(l) != 0 && Signed(r) != 0 && width >= 1 && width + 4 <= l.width + r.width
    ensures !Fits(Signed(l) * Signed(r), width)
  {
    MagnitudeAtLeast(l);
    MagnitudeAtLeast(r);
    ProductAtLeast(Signed(l), Signed(r), Pow2(l.width), Pow2(r.width));
    Pow2Add(l.width, r.width);
    Pow2Monotone(width + 4, l.width + r.width);
    Pow2Add(width - 1, 5);
    assert Pow2(5) == 32;
  }

  /** A product is exact if and only if the sum of the widths fits 32 bits, or a factor is zero. */
  lemma MulExactly(l: IPInt, r: IPInt)
    requires Defined(l, r, Mul)
    ensures Signed(Binop(l, r, Mul)) == Signed(l) * Signed(r)
       <==> WidthHolds(l, r, Mul) || Signed(l) == 0 || Signed(r) == 0
  {
    if WidthHolds(l, r, Mul) {
      BinopExact(l, r, Mul);
    } else if Signed(l) == 0 || Signed(r) == 0 {
      ZeroFactor(l, r);
    } else {
      CutWidth(l, r, Mul);
      ProductNeedsWidth(l, r, WidthUsed(l, r, Mul));
      ResultWidth(l, r, Mul);
    }
  }

  lemma ResultWidth(l: IPInt, r: IPInt, op: BinOp)
    requires Defined(l, r, op)
    ensures Fits(Signed(Binop(l, r, op)), WidthUsed(l, r, op))
  {
    var w := WidthUsed(l, r, op);
    ResizedWidth(l, w);
    ResizedWidth(r, w);
    SignedFits(AtWidth(SextOrTrunc(l, w), SextOrTrunc(r, w), op));
  }

  lemma ZeroFactor(l: IPInt, r: IPInt)
    requires Defined(l, r, Mul) && (Signed(l) == 0 || Signed(r) == 0)
    ensures Signed(Binop(l, r, Mul)) == Signed(l) * Signed(r)
  {
    var w := WidthUsed(l, r, Mul);
    ResizedWidth(l, w);
    ResizedWidth(r, w);
    ZeroResized(l, w);
    ZeroResized(r, w);
    NoProduct(Signed(l), Signed(r));
    ZeroProductAt(SextOrTrunc(l, w), SextOrTrunc(r, w));
  }

  lemma NoProduct(x: int, y: int)
    requires x == 0 || y == 0
    ensures x * y == 0
  {
  }

  lemma ZeroProductAt(l: APInt, r: APInt)
    requires l.width == r.width && Fits(0, l.width) && (Signed(l) == 0 || Signed(r) == 0)
    ensures Signed(AtWidth(l, r, Mul)) == 0
  {
    NoProduct(Signed(l), Signed(r));
    WrappedFits(0, l.width);
  }

  lemma ZeroResized(a: IPInt, width: nat)
    requires width >= 1
    ensures Fits(0, width) && (Signed(a) == 0 ==> Signed(SextOrTrunc(a, width)) == 0)
  {
    Pow2Monotone(0, width - 1);
    if Signed(a) == 0 {
      SextOrTruncKeeps(a, width);
    }
  }

  // ----- quotients -----

  /** q is the quotient rounded toward zero: what it leaves is smaller than the divisor and has the sign of a. */
  predicate IsQuotient(a: int, b: int, q: int) {
    var rest := a - Product(q, b);
    Abs(rest) < Abs(b) && (rest == 0 || (rest < 0 <==> a < 0))
  }

  lemma QuotientUnique(a: int, b: int, q: int)
    requires b != 0
    ensures TDiv(a, b) == q <==> IsQuotient(a, b, q)
  {
    var t := TDiv(a, b);
    DivisionIdentity(a, b);
    TRemBounds(a, b);
    assert b * t == Product(t, b);
    if IsQuotient(a, b, q) {
      SameTurns(b, t, q, a - Product(t, b), a - Product(q, b));
    }
  }

  lemma TurnsAtLeast(d: int, b: int)
    requires d != 0
    ensures Abs(Product(d, b)) >= Abs(b)
  {
    MulMonotone(1, Abs(d), Abs(b));
    MulNeg(d, b);
  }

  lemma TurnsApart(t: int, q: int, b: int)
    ensures Product(t - q, b) == Product(t, b) - Product(q, b)
  {
  }

  /** Two remainders on the same side of zero, both smaller than the divisor, belong to one quotient. */
  lemma SameTurns(b: int, t: int, q: int, x: int, y: int)
    requires Product(t, b) + x == Product(q, b) + y && Abs(x) < Abs(b) && Abs(y) < Abs(b)
    requires (x >= 0 && y >= 0) || (x <= 0 && y <= 0)
    ensures t == q
  {
    TurnsApart(t, q, b);
    if t != q {
      TurnsAtLeast(t - q, b);
    }
  }

  /** The one quotient of fitting numbers that does not fit. */
  predicate Overflows(a: int, b: int, width: nat)
    requires width >= 1
  {
    a == -Pow2(width - 1) && b == -1
  }

  lemma QuotientStays(a: int, b: int, width: nat)
    requires width >= 1 && Fits(a, width) && b != 0 && !Overflows(a, b, width)
    ensures Fits(TDiv(a, b), width)
  {
    TDivBounds(a, b);
    if Abs(b) >= 2 {
      HalfAtMost(Abs(a), Abs(b));
    }
  }

  lemma HalfAtMost(m: int, n: int)
    requires m >= 0 && n >= 2
    ensures 2 * (m / n) <= m
  {
    var q := m / n;
    assert m == n * q + m % n;
    MulMonotone(2, n, q);
  }

  lemma QuotientAt(l: APInt, r: APInt, q: int)
    requires l.width == r.width && Signed(r) != 0
    ensures Signed(AtWidth(l, r, Div)) == q
       <==> if Overflows(Signed(l), Signed(r), l.width) then q == Signed(l) else IsQuotient(Signed(l), Signed(r), q)
  {
    var w := l.width;
    SignedFits(l);
    if Overflows(Signed(l), Signed(r), w) {
      OverflowWraps(w);
    } else {
      QuotientStays(Signed(l), Signed(r), w);
      WrappedFits(TDiv(Signed(l), Signed(r)), w);
      QuotientUnique(Signed(l), Signed(r), q);
    }
  }

  lemma OverflowWraps(width: nat)
    requires width >= 1
    ensures TDiv(-Pow2(width - 1), -1) == Pow2(width - 1)
    ensures Signed(Wrapped(Pow2(width - 1), width)) == -Pow2(width - 1)
  {
    ModOfSmall(Pow2(width - 1), Pow2(width));
  }

  /**
   A quotient is exact if and only if, multiplied back, it leaves a proper remainder of the operands as
   they were cut, save for the one pair whose quotient overflows and comes out as the dividend.
   */
  lemma QuotientExactly(l: IPInt, r: IPInt)
    requires Defined(l, r, Div) && Signed(r) != 0
    ensures var w, q := WidthUsed(l, r, Div), TDiv(Signed(l), Signed(r));
            var a, b := Signed(SextOrTrunc(l, w)), Signed(SextOrTrunc(r, w));
            Signed(Binop(l, r, Div)) == q <==> if Overflows(a, b, w) then q == a else IsQuotient(a, b, q)
  {
    var w := WidthUsed(l, r, Div);
    ResizedWidth(l, w);
    ResizedWidth(r, w);
    QuotientAt(SextOrTrunc(l, w), SextOrTrunc(r, w), TDiv(Signed(l), Signed(r)));
  }

  lemma ZeroQuotient(a: int, b: int, width: nat)
    requires width >= 1
    ensures (if Overflows(a, b, width) then 0 == a else IsQuotient(a, b, 0)) <==> Abs(a) < Abs(b)
  {
  }

  lemma SmallQuotient(a: int, b: int)
    requires Abs(a) < Abs(b)
    ensures TDiv(a, b) == 0
  {
    QuotientUnique(a, b, 0);
  }

  /** So for a dividend smaller than the divisor it is exact if and only if cutting keeps that order. */
  lemma SmallQuotientExactly(l: IPInt, r: IPInt)
    requires Defined(l, r, Div) && Abs(Signed(l)) < Abs(Signed(r))
    ensures var w, exact := WidthUsed(l, r, Div), Signed(Binop(l, r, Div)) == TDiv(Signed(l), Signed(r));
            exact <==> Abs(Signed(SextOrTrunc(l, w))) < Abs(Signed(SextOrTrunc(r, w)))
  {
    var w := WidthUsed(l, r, Div);
    QuotientExactly(l, r);
    SmallQuotient(Signed(l), Signed(r));
    ZeroQuotient(Signed(SextOrTrunc(l, w)), Signed(SextOrTrunc(r, w)), w);
  }

  /** The number two to the n, plus a bit, at its own width. */
  lemma PowerNumber(n: nat, bit: nat) returns (a: IPInt)
    requires bit <= 1 <= n
    ensures Signed(a) == Pow2(n) + bit && a.width == n + 2
  {
    Pow2Monotone(1, n);
    assert Pow2(n + 2) == 2 * Pow2(n + 1);
    a := Normalize(Pattern(n + 2, Pow2(n) + bit));
    SignificantIsMinimal(a, n + 2);
    SignificantIsMinimal(a, n + 1);
  }

  lemma CutQuotient(l: IPInt, r: IPInt, n: nat, w: nat)
    requires Signed(l) == Pow2(n + 1) && Signed(r) == Pow2(n) + 1 && WidthUsed(l, r, Div) == w && 2 <= w <= n
    ensures Defined(l, r, Div) && Signed(Binop(l, r, Div)) == 0 && TDiv(Signed(l), Signed(r)) == 1
  {
    LowBitsOfPower(l, 0, n + 1, w);
    LowBitsOfPower(r, 1, n, w);
    QuotientOne(Pow2(n));
    NothingByOne(SextOrTrunc(l, w), SextOrTrunc(r, w));
  }

  lemma CutWidthIs(l: IPInt, r: IPInt, op: BinOp, w: nat)
    requires AddsWidths(op) && FullWidth(l, r, op) == w + WIDTH_LIMIT && w < WIDTH_LIMIT
    ensures WidthUsed(l, r, op) == w
  {
    ModShift(w, 1, WIDTH_LIMIT);
    ModOfSmall(w, WIDTH_LIMIT);
  }

  /** Two numbers whose quotient is 1, cut to 0 and 1, so that it becomes 0. */
  lemma QuotientCanBeCut() returns (l: IPInt, r: IPInt)
    ensures Defined(l, r, Div) && Signed(r) != 0 && Signed(Binop(l, r, Div)) == 0 && TDiv(Signed(l), Signed(r)) == 1
  {
    var n := WIDTH_LIMIT / 2;
    l := PowerNumber(n + 1, 0);
    r := PowerNumber(n, 1);
    CutWidthIs(l, r, Div, 5);
    CutQuotient(l, r, n, 5);
  }

  lemma CutDouble(a: IPInt, n: nat, w: nat)
    requires Signed(a) == Pow2(n) && WidthUsed(a, a, Add) == w && 2 <= w <= n
    ensures Defined(a, a, Add) && Signed(Binop(a, a, Add)) == 0 && Signed(a) > 0
  {
    LowBitsOfPower(a, 0, n, w);
    NothingAdded(SextOrTrunc(a, w));
  }

  /** Two equal powers of two, cut to 0, so that their sum becomes 0. */
  lemma SumCanBeCut() returns (a: IPInt)
    ensures Defined(a, a, Add) && Signed(Binop(a, a, Add)) == 0 && Signed(a) > 0
  {
    var n := WIDTH_LIMIT / 2;
    a := PowerNumber(n, 0);
    CutWidthIs(a, a, Add, 4);
    CutDouble(a, n, 4);
  }

  lemma NothingByOne(l: APInt, r: APInt)
    requires l.width == r.width && Signed(l) == 0 && Signed(r) == 1
    ensures Signed(AtWidth(l, r, Div)) == 0
  {
    SignedFits(l);
    WrappedFits(0, l.width);
  }

  lemma NothingAdded(a: APInt)
    requires Signed(a) == 0
    ensures Signed(AtWidth(a, a, Add)) == 0
  {
    SignedFits(a);
    WrappedFits(0, a.width);
  }

  lemma QuotientOne(p: int)
    requires p > 1
    ensures TDiv(2 * p, p + 1) == 1
  {
    MulSign(2 * p / (p + 1) - 1, p + 1);
  }

  /** What a width keeps of a larger power of two plus a bit. */
  lemma LowBitsOfPower(a: IPInt, bit: int, n: nat, width: nat)
    requires 2 <= width <= n && 0 <= bit <= 1 && Signed(a) == Pow2(n) + bit
    ensures SextOrTrunc(a, width).width == width && Signed(SextOrTrunc(a, width)) == bit && Pow2(n) > 1
  {
    Pow2Monotone(1, width - 1);
    Pow2Add(n - width, width);
    AmountBits(a, width);
    ResizedWidth(a, width);
    ModShift(bit, Pow2(n - width), Pow2(width));
    ModOfSmall(bit, Pow2(width));
  }
}

/**
 Unbounded integers (Support/include/Support/IPInt.h, Support/lib/IPInt.cpp): a pattern kept at the
 least width that holds its value.  Every operator picks a width, runs the fixed-width operation at
 that width and normalises the result.
 */
module IPInts {
  import opened Common
  import opened Arithmetic
  import opened FixedWidth

  /** The constructors normalise, so every object is at its significant width. */
  type IPInt = a: APInt | SignificantBits(a) == a.width witness Pattern(1, 0)

  /** `IPInt(const llvm::APInt)` */
  function Normalize(a: APInt): (r: IPInt)
    ensures Signed(r) == Signed(a)
  {
    SignificantIsMinimal(a, SignificantBits(a));
    TruncKeeps(a, SignificantBits(a));
    NormalIsMinimal(a);
    Trunc(a, SignificantBits(a))
  }

  lemma {:induction false} NormalIsMinimal(a: APInt)
    ensures SignificantBits(Trunc(a, SignificantBits(a))) == SignificantBits(a)
  {
    var n := SignificantBits(a);
    var t := Trunc(a, n);
    SignificantIsMinimal(a, n);
    TruncKeeps(a, n);
    if n > 1 {
      SignificantIsMinimal(a, n - 1);
      SignificantIsMinimal(t, n - 1);
    }
    SignificantIsMinimal(t, n);
  }

  /** `IPInt(uint64_t)`: the 64 bits are read as a signed number. */
  function FromUint64(u: nat): IPInt
    requires u < Pow2(64)
  {
    Normalize(Pattern(64, u))
  }

  /** An integer literal reaches the `uint64_t` constructor by conversion. */
  function Lit(v: int): (r: IPInt)
    requires Fits(v, 64)
  {
    FromUint64(v % Pow2(64))
  }

  lemma LitValue(v: int)
    requires Fits(v, 64)
    ensures Signed(Lit(v)) == v
  {
    WrappedFits(v, 64);
  }

  lemma SmallFits(v: int)
    requires -2 <= v < 3
    ensures Fits(v, 64)
  {
    Pow2Monotone(2, 63);
    assert Pow2(2) == 4;
  }

  /** Reading an unsigned value back gives it unchanged exactly below two to the 63rd. */
  lemma FromUint64Exact(u: nat)
    requires u < Pow2(64)
    ensures Signed(FromUint64(u)) == u <==> u < Pow2(63)
    ensures u >= Pow2(63) ==> Signed(FromUint64(u)) == u - Pow2(64)
  {
  }

  datatype CmpOp = Sgt | Sge | Slt | Sle

  function Cmp(l: IPInt, r: IPInt, op: CmpOp): bool {
    var lExt := if l.width > r.width then l else Sext(l, r.width);
    var rExt := if l.width < r.width then r else Sext(r, l.width);
    match op
    case Sgt => Signed(lExt) > Signed(rExt)
    case Sge => Signed(lExt) >= Signed(rExt)
    case Slt => Signed(lExt) < Signed(rExt)
    case Sle => Signed(lExt) <= Signed(rExt)
  }

  predicate Equal(l: IPInt, r: IPInt) {
    l.width == r.width && l.bits == r.bits
  }

  /** Minimal width makes equality of patterns equality of values. */
  lemma EqualIsValueEquality(l: IPInt, r: IPInt)
    ensures Equal(l, r) <==> Signed(l) == Signed(r)
  {
    if Signed(l) == Signed(r) {
      SignedFits(l);
      SignedFits(r);
      SignificantIsMinimal(l, r.width);
      SignificantIsMinimal(r, l.width);
      WrappedSigned(l);
      WrappedSigned(r);
    }
  }

  /** Comparison is integer order, whatever the two widths. */
  lemma CmpIsValueOrder(l: IPInt, r: IPInt)
    ensures Cmp(l, r, Sgt) <==> Signed(l) > Signed(r)
    ensures Cmp(l, r, Sge) <==> Signed(l) >= Signed(r)
    ensures Cmp(l, r, Slt) <==> Signed(l) < Signed(r)
    ensures Cmp(l, r, Sle) <==> Signed(l) <= Signed(r)
  {
    if l.width <= r.width { SextKeeps(l, r.width); }
    if r.width <= l.width { SextKeeps(r, l.width); }
  }

  datatype BinOp = Add | Sub | Mul | Div | Mod | Lshift | Rshift | Bits(logic: Logic)

  predicate Shifts(op: BinOp) {
    op.Lshift? || op.Rshift?
  }

  /** `APInt::abs` followed by `getZExtValue`: the magnitude, read off as an unsigned number. */
  function MagnitudeBits(r: APInt): nat {
    if Negative(r) then Wrapped(-Signed(r), r.width).bits else r.bits
  }

  /** The width an operator asks for. */
  function FullWidth(l: IPInt, r: IPInt, op: BinOp): (w: nat)
    ensures w >= 1
  {
    match op
    case Add => l.width + r.width
    case Sub => l.width + r.width
    case Mul => l.width + r.width
    case Div => l.width + r.width
    case Lshift => l.width + MagnitudeBits(r)
    case Rshift => l.width + MagnitudeBits(r)
    case Mod => Max(l.width, r.width)
    case Bits(_) => Max(l.width, r.width)
  }

  /** `unsigned` */
  const WIDTH_LIMIT: nat := 0x1_0000_0000

  /** The remainder and the logical operators take one of the two stored widths, the others add. */
  predicate AddsWidths(op: BinOp) {
    !op.Mod? && !op.Bits?
  }

  /** `widthUse`: a sum is kept in 32 bits, as the stored widths are. */
  function WidthUsed(l: IPInt, r: IPInt, op: BinOp): nat {
    if AddsWidths(op) then FullWidth(l, r, op) % WIDTH_LIMIT else FullWidth(l, r, op)
  }

  predicate WidthHolds(l: IPInt, r: IPInt, op: BinOp) {
    AddsWidths(op) ==> FullWidth(l, r, op) < WIDTH_LIMIT
  }

  predicate ByZero(op: BinOp, r: APInt) {
    (op.Div? || op.Mod?) && Signed(r) == 0
  }

  /** The operation on two patterns of one width. */
  function AtWidth(l: APInt, r: APInt, op: BinOp): APInt
    requires l.width == r.width && !ByZero(op, r)
  {
    match op
    case Add => Saturated(Signed(l) + Signed(r), l.width)
    case Sub => Saturated(Signed(l) - Signed(r), l.width)
    case Mul => Saturated(Signed(l) * Signed(r), l.width)
    case Div => Wrapped(TDiv(Signed(l), Signed(r)), l.width)
    case Mod => Wrapped(TRem(Signed(l), Signed(r)), l.width)
    case Lshift => Shl(l, r.bits)
    case Rshift => Ashr(l, r.bits)
    case Bits(logic) => Pattern(l.width, Bitwise(logic, l.bits, r.bits, l.width))
  }

  lemma ResizedWidth(a: APInt, width: nat)
    requires width >= 1
    ensures SextOrTrunc(a, width).width == width
  {
  }

  /** An operation at a width: resize, operate, normalise. */
  function BinopAt(l: IPInt, r: IPInt, op: BinOp, w: nat): IPInt
    requires w > 0 && !ByZero(op, SextOrTrunc(r, w))
  {
    ResizedWidth(l, w);
    ResizedWidth(r, w);
    Normalize(AtWidth(SextOrTrunc(l, w), SextOrTrunc(r, w), op))
  }

  /** What LLVM accepts: no pattern of width zero, and no divisor that is zero after resizing. */
  predicate Defined(l: IPInt, r: IPInt, op: BinOp) {
    WidthUsed(l, r, op) > 0 && !ByZero(op, SextOrTrunc(r, WidthUsed(l, r, op)))
  }

  /** `IPInt::binop` */
  function Binop(l: IPInt, r: IPInt, op: BinOp): IPInt
    requires Defined(l, r, op)
  {
    BinopAt(l, r, op, WidthUsed(l, r, op))
  }

  /** The same at the full width, however large. */
  function WideBinop(l: IPInt, r: IPInt, op: BinOp): IPInt
    requires !ByZero(op, r)
  {
    OperandsKept(l, r, op);
    BinopAt(l, r, op, FullWidth(l, r, op))
  }

  /** As long as the width is not cut they are one and the same. */
  lemma BinopIsWide(l: IPInt, r: IPInt, op: BinOp)
    requires WidthHolds(l, r, op) && !ByZero(op, r)
    ensures Defined(l, r, op) && Binop(l, r, op) == WideBinop(l, r, op)
  {
    OperandsKept(l, r, op);
    if AddsWidths(op) {
      ModOfSmall(FullWidth(l, r, op), WIDTH_LIMIT);
    }
  }

  lemma MagnitudeIsAbs(r: APInt)
    ensures MagnitudeBits(r) == Abs(Signed(r))
  {
    if Negative(r) {
      ModOfSmall(-Signed(r), Pow2(r.width));
    }
  }

  /** At its minimal width a number is at most one bit wider than its magnitude. */
  lemma WidthAtMostMagnitude(r: IPInt)
    ensures r.width <= Abs(Signed(r)) + 1
  {
    if r.width > 1 {
      SignificantIsMinimal(r, r.width - 1);
      Pow2Grows(r.width - 2);
    }
  }

  /** The width an operator asks for never cuts an operand. */
  lemma OperandsKept(l: IPInt, r: IPInt, op: BinOp)
    ensures var w := FullWidth(l, r, op);
            && l.width <= w && r.width <= w
            && SextOrTrunc(l, w).width == w == SextOrTrunc(r, w).width
            && Signed(SextOrTrunc(l, w)) == Signed(l) && Signed(SextOrTrunc(r, w)) == Signed(r)
  {
    WidthEnough(l, r, op);
    ExtensionKeeps(l, FullWidth(l, r, op));
    ExtensionKeeps(r, FullWidth(l, r, op));
  }

  lemma ExtensionKeeps(a: APInt, w: nat)
    requires a.width <= w
    ensures SextOrTrunc(a, w).width == w && Signed(SextOrTrunc(a, w)) == Signed(a)
  {
    SextKeeps(a, w);
  }

  lemma WidthEnough(l: IPInt, r: IPInt, op: BinOp)
    ensures l.width <= FullWidth(l, r, op) && r.width <= FullWidth(l, r, op)
  {
    if Shifts(op) {
      MagnitudeIsAbs(r);
      WidthAtMostMagnitude(r);
    }
  }

  /** The integer each arithmetic operator stands for; the logical ones are described bit by bit. */
  function Meaning(op: BinOp, a: int, b: int): int
    requires (op.Div? || op.Mod? ==> b != 0) && !op.Bits?
  {
    match op
    case Add => a + b
    case Sub => a - b
    case Mul => a * b
    case Div => TDiv(a, b)
    case Mod => TRem(a, b)
    case Lshift => if b >= 0 then a * Pow2(b) else 0
    case Rshift => if b >= 0 then Halved(a, b) else if a < 0 then -1 else 0
  }

  lemma SumFits(l: APInt, r: APInt)
    ensures Fits(Signed(l) + Signed(r), l.width + r.width)
    ensures Fits(Signed(l) - Signed(r), l.width + r.width)
  {
    SignedFits(l);
    SignedFits(r);
    FitsMonotone(Signed(l), l.width, l.width + r.width - 1);
    FitsMonotone(Signed(r), r.width, l.width + r.width - 1);
  }

  lemma ProductFits(l: APInt, r: APInt)
    ensures Fits(Signed(l) * Signed(r), l.width + r.width)
  {
    Pow2Add(l.width - 1, r.width - 1);
    SignedFits(l);
    SignedFits(r);
    ProductBound(Signed(l), Signed(r), Pow2(l.width - 1), Pow2(r.width - 1));
  }

  lemma ProductBound(a: int, b: int, p: int, q: int)
    requires -p <= a <= p && -q <= b <= q
    ensures -(p * q) <= a * b <= p * q
  {
    assert p * q - a * b == (p - a) * q + a * (q - b);
    assert p * q + a * b == (p + a) * q + -a * (q - b);
    if a >= 0 {
      assert (p - a) * q >= 0 && a * (q - b) >= 0;
      assert p * q + a * b == (p - a) * q + a * (q + b);
      assert a * (q + b) >= 0;
    } else {
      assert (p + a) * q >= 0 && -a * (q - b) >= 0;
      assert p * q - a * b == (p + a) * q + -a * (q + b);
      assert -a * (q + b) >= 0;
    }
  }

  lemma QuotientFits(l: APInt, r: APInt)
    requires Signed(r) != 0
    ensures Fits(TDiv(Signed(l), Signed(r)), l.width + r.width)
  {
    TDivBounds(Signed(l), Signed(r));
    SignedFits(l);
    Pow2Monotone(l.width, l.width + r.width - 1);
  }

  lemma RemainderFits(l: APInt, r: APInt)
    requires Signed(r) != 0
    ensures Fits(TRem(Signed(l), Signed(r)), Max(l.width, r.width))
  {
    TRemBounds(Signed(l), Signed(r));
    var w := Max(l.width, r.width);
    FitsMonotone(Signed(l), l.width, w);
    FitsMonotone(Signed(r), r.width, w);
  }

  /** A negative amount, read as an unsigned pattern, is at least the width. */
  lemma NegativeAmount(l: IPInt, r: IPInt)
    requires Signed(r) < 0
    ensures var w := l.width + MagnitudeBits(r); r.width <= w && Sext(r, w).bits >= w
  {
    MagnitudeIsAbs(r);
    WidthAtMostMagnitude(r);
    var w := l.width + MagnitudeBits(r);
    SextKeeps(r, w);
    Pow2Grows(w - 1);
  }

  lemma LeftShiftExact(l: APInt, r: APInt, width: nat)
    requires l.width == r.width == width + r.bits && width >= 1 && Fits(Signed(l), width)
    ensures Signed(Shl(l, r.bits)) == Signed(l) * Pow2(r.bits)
  {
    ScaledFits(Signed(l), width, r.bits);
    ShlExact(l, r.bits);
  }

  lemma RightShiftExact(l: APInt, amount: nat)
    requires amount < l.width
    ensures Signed(Ashr(l, amount)) == Halved(Signed(l), amount)
  {
    SignedFits(l);
    HalvedFits(Signed(l), amount, l.width);
    WrappedFits(Halved(Signed(l), amount), l.width);
  }

  /** An amount of at least the width leaves nothing but the sign, and after a left shift not even that. */
  lemma AllShiftedOut(l: APInt, amount: nat)
    requires amount >= l.width
    ensures Signed(Shl(l, amount)) == 0
    ensures Signed(Ashr(l, amount)) == if Signed(l) < 0 then -1 else 0
  {
    Pow2Monotone(0, l.width - 1);
    WrappedFits(0, l.width);
    WrappedFits(-1, l.width);
  }

  lemma ShiftAt(l: IPInt, r: IPInt, op: BinOp, w: nat)
    requires Shifts(op) && w == l.width + MagnitudeBits(r) && r.width <= w
    ensures Signed(AtWidth(Sext(l, w), Sext(r, w), op)) == Meaning(op, Signed(l), Signed(r))
  {
    var lx, rx := Sext(l, w), Sext(r, w);
    MagnitudeIsAbs(r);
    SextKeeps(l, w);
    SextKeeps(r, w);
    if Signed(r) < 0 {
      NegativeAmount(l, r);
      AllShiftedOut(lx, rx.bits);
    } else if op.Lshift? {
      SignedFits(l);
      LeftShiftExact(lx, rx, l.width);
    } else {
      RightShiftExact(lx, rx.bits);
    }
  }

  lemma ShiftExact(l: IPInt, r: IPInt, op: BinOp)
    requires Shifts(op)
    ensures Signed(WideBinop(l, r, op)) == Meaning(op, Signed(l), Signed(r))
  {
    WidthEnough(l, r, op);
    ShiftAt(l, r, op, FullWidth(l, r, op));
  }

  /** The width an operator asks for holds the exact result. */
  lemma ResultFits(l: IPInt, r: IPInt, op: BinOp)
    requires !ByZero(op, r) && !op.Bits? && !Shifts(op)
    ensures Fits(Meaning(op, Signed(l), Signed(r)), FullWidth(l, r, op))
  {
    match op
    case Add => SumFits(l, r);
    case Sub => SumFits(l, r);
    case Mul => ProductFits(l, r);
    case Div => QuotientFits(l, r);
    case Mod => RemainderFits(l, r);
  }

  /** If the exact result fits, the operation yields it. */
  lemma FittingIsExact(l: APInt, r: APInt, op: BinOp)
    requires l.width == r.width && (op.Div? || op.Mod? ==> Signed(r) != 0)
    requires !op.Bits? && !Shifts(op)
    requires Fits(Meaning(op, Signed(l), Signed(r)), l.width)
    ensures Signed(AtWidth(l, r, op)) == Meaning(op, Signed(l), Signed(r))
  {
    WrappedFits(Meaning(op, Signed(l), Signed(r)), l.width);
  }

  /** At full width no arithmetic operator saturates, wraps or truncates: the result is the integer one. */
  lemma WideExact(l: IPInt, r: IPInt, op: BinOp)
    requires !ByZero(op, r) && !op.Bits?
    ensures Signed(WideBinop(l, r, op)) == Meaning(op, Signed(l), Signed(r))
  {
    if Shifts(op) {
      ShiftExact(l, r, op);
    } else {
      var w := FullWidth(l, r, op);
      OperandsKept(l, r, op);
      ResultFits(l, r, op);
      FittingIsExact(SextOrTrunc(l, w), SextOrTrunc(r, w), op);
    }
  }

  /** As written every operator is exact while the width it asks for fits 32 bits. */
  lemma BinopExact(l: IPInt, r: IPInt, op: BinOp)
    requires WidthHolds(l, r, op) && !ByZero(op, r) && !op.Bits?
    ensures Defined(l, r, op) && Signed(Binop(l, r, op)) == Meaning(op, Signed(l), Signed(r))
  {
    BinopIsWide(l, r, op);
    WideExact(l, r, op);
  }

  // ----- logical operators: the infinite two's-complement expansion -----

  lemma {:induction false} BitsBelow(v: int, n: nat, k: nat)
    requires k < n
    ensures BitOf(v - Pow2(n), k) == BitOf(v, k)
    decreases k
  {
    if k > 0 {
      BitsBelow(v / 2, n - 1, k - 1);
      assert (v - Pow2(n)) / 2 == v / 2 - Pow2(n - 1);
    }
  }

  lemma {:induction false} ConstantBits(k: nat)
    ensures !BitOf(0, k) && BitOf(-1, k)
  {
    if k > 0 {
      ConstantBits(k - 1);
    }
  }

  lemma {:induction false} BitsAbove(v: int, n: nat, k: nat)
    requires -Pow2(n) <= v < Pow2(n) && k >= n
    ensures BitOf(v, k) <==> v < 0
    decreases n
  {
    if n == 0 {
      ConstantBits(k);
    } else {
      BitsAbove(v / 2, n - 1, k - 1);
    }
  }

  /** Bit k of the value is bit k of the pattern, the sign bit repeating forever. */
  lemma SignedBits(a: APInt, k: nat)
    ensures BitOf(Signed(a), k) == BitOf(a.bits, if k < a.width then k else a.width - 1)
  {
    SignedFits(a);
    var j := if k < a.width then k else a.width - 1;
    if Negative(a) {
      BitsBelow(a.bits, a.width, j);
    }
    if k >= a.width {
      BitsAbove(Signed(a), a.width - 1, k);
      BitsAbove(Signed(a), a.width - 1, j);
    }
  }

  lemma {:induction false} BitwiseBits(op: Logic, x: nat, y: nat, width: nat, k: nat)
    requires k < width
    ensures BitOf(Bitwise(op, x, y, width), k) == OnBits(op, BitOf(x, k), BitOf(y, k))
    decreases k
  {
    var rest := Bitwise(op, x / 2, y / 2, width - 1);
    assert Bitwise(op, x, y, width) / 2 == rest;
    if k > 0 {
      BitwiseBits(op, x / 2, y / 2, width - 1, k - 1);
    }
  }

  /** `&`, `|` and `^` act on every bit of the unbounded two's-complement expansions. */
  lemma WideLogic(l: IPInt, r: IPInt, logic: Logic, k: nat)
    ensures BitOf(Signed(WideBinop(l, r, Bits(logic))), k) == OnBits(logic, BitOf(Signed(l), k), BitOf(Signed(r), k))
  {
    var op := Bits(logic);
    var w := FullWidth(l, r, op);
    OperandsKept(l, r, op);
    var lx, rx := SextOrTrunc(l, w), SextOrTrunc(r, w);
    var j := if k < w then k else w - 1;
    SignedBits(AtWidth(lx, rx, op), k);
    SignedBits(lx, k);
    SignedBits(rx, k);
    BitwiseBits(logic, lx.bits, rx.bits, w, j);
  }

  /** As written. */
  lemma LogicExact(l: IPInt, r: IPInt, logic: Logic, k: nat)
    ensures Defined(l, r, Bits(logic))
    ensures var a, b, c := BitOf(Signed(l), k), BitOf(Signed(r), k), BitOf(Signed(Binop(l, r, Bits(logic))), k);
            match logic
            case And => c <==> a && b
            case Or => c <==> a || b
            case Xor => c <==> (a || b) && !(a && b)
  {
    BinopIsWide(l, r, Bits(logic));
    WideLogic(l, r, logic, k);
  }
}

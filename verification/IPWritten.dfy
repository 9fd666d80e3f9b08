/**
 Exponentiation and the rationals on the operators as written, whose widths are kept in 32 bits, with
 the bounds on the operands under which no width is cut (Support/lib/IPInt.cpp:159-202,
 Support/lib/IPRational.cpp:38-143).
 */
module IPWritten {
  import opened Common
  import opened Arithmetic
  import opened FixedWidth
  import opened IPInts
  import opened IPIntAlgorithms
  import opened IPRationals

  // ----- widths of results -----

  predicate Room(l: IPInt, r: IPInt) {
    l.width + r.width < WIDTH_LIMIT
  }

  /** + - * / */
  predicate Basic(op: BinOp) {
    op.Add? || op.Sub? || op.Mul? || op.Div?
  }

  lemma AsWritten(l: IPInt, r: IPInt, op: BinOp)
    requires Basic(op) && Room(l, r) && !ByZero(op, r)
    ensures Defined(l, r, op) && Binop(l, r, op) == WideBinop(l, r, op)
  {
    BinopIsWide(l, r, op);
  }

  lemma WidthOf(x: IPInt, width: nat)
    requires width >= 1 && Fits(Signed(x), width)
    ensures x.width <= width
  {
    SignificantIsMinimal(x, width);
  }

  lemma PlusWidth(l: IPInt, r: IPInt)
    ensures Plus(l, r).width <= l.width + r.width
  {
    SumFits(l, r);
    WidthOf(Plus(l, r), l.width + r.width);
  }

  lemma MinusWidth(l: IPInt, r: IPInt)
    ensures Minus(l, r).width <= l.width + r.width
  {
    SumFits(l, r);
    WidthOf(Minus(l, r), l.width + r.width);
  }

  lemma SumWidths(l: IPInt, r: IPInt)
    ensures Plus(l, r).width <= l.width + r.width && Minus(l, r).width <= l.width + r.width
  {
    PlusWidth(l, r);
    MinusWidth(l, r);
  }

  lemma ProductWidth(l: IPInt, r: IPInt)
    ensures Times(l, r).width <= l.width + r.width
  {
    ProductFits(l, r);
    WidthOf(Times(l, r), l.width + r.width);
  }

  /** A number no larger than another is at most one bit wider. */
  lemma NoLarger(x: IPInt, y: IPInt)
    requires Abs(Signed(x)) <= Abs(Signed(y))
    ensures x.width <= y.width + 1
  {
    SignedFits(y);
    WidthOf(x, y.width + 1);
  }

  lemma QuotientWidth(l: IPInt, r: IPInt)
    requires Signed(r) != 0
    ensures Quotient(l, r).width <= l.width + 1
  {
    TDivBounds(Signed(l), Signed(r));
    NoLarger(Quotient(l, r), l);
  }

  lemma SmallWidth(v: int)
    requires -2 <= v < 3
    ensures Small(v).width <= 3 && (-1 <= v <= 0 ==> Small(v).width == 1) && (-2 <= v <= 1 ==> Small(v).width <= 2)
  {
    assert Pow2(2) == 4 && Pow2(1) == 2 && Pow2(0) == 1;
    WidthOf(Small(v), 3);
    if v <= 1 {
      WidthOf(Small(v), 2);
    }
    if -1 <= v <= 0 {
      WidthOf(Small(v), 1);
    }
  }

  method Product32(l: IPInt, r: IPInt) returns (p: IPInt)
    requires Room(l, r)
    ensures p == Times(l, r) && p.width <= l.width + r.width
  {
    AsWritten(l, r, Mul);
    ProductWidth(l, r);
    p := Binop(l, r, Mul);
  }

  // ----- magnitude and power -----

  /** `IPInt::abs` */
  method Abs32(x: IPInt) returns (r: IPInt)
    requires x.width + 1 < WIDTH_LIMIT
    ensures r == Absolute(x)
  {
    if IsNegative(x) {
      SmallWidth(0);
      AsWritten(Small(0), x, Sub);
      r := Binop(Small(0), x, Sub);
    } else {
      r := x;
    }
  }

  /** No product of the loop, its last and unused square included, asks for 2^32 bits. */
  predicate PowerRoom(base: IPInt, exp: IPInt) {
    if Signed(exp) < 0 then exp.width + 1 < WIDTH_LIMIT
    else 2 * Product(base.width, Signed(exp)) + 1 < WIDTH_LIMIT
  }

  lemma ThirtyTwo()
    ensures Pow2(32) == WIDTH_LIMIT
  {
    Doubled(8, 256);
    Doubled(16, 0x1_0000);
  }

  lemma Doubled(n: nat, p: nat)
    requires Pow2(n) == p
    ensures Pow2(2 * n) == p * p
  {
    Pow2Add(n, n);
  }

  lemma ExponentWidth(exp: IPInt)
    requires 0 <= Signed(exp) < WIDTH_LIMIT
    ensures exp.width <= 33
  {
    ThirtyTwo();
    WidthOf(exp, 33);
  }

  /** While the exponent is not used up, the bits so far are within the budget, and doubling them stays so. */
  lemma BudgetStep(bits: nat, exp: int, total: int)
    requires exp >= 1 && bits >= 1 && Product(bits, exp) <= total
    ensures bits <= total && exp <= total && Product(2 * bits, exp / 2) <= total
  {
    MulMonotone(1, exp, bits);
    MulMonotone(1, bits, exp);
    MulMonotone(2 * (exp / 2), exp, bits);
    Regrouped(bits, exp / 2);
    assert bits * exp == exp * bits;
  }

  lemma Regrouped(b: int, h: int)
    ensures (2 * b) * h == (2 * h) * b
  {
  }

  /** The loop's result times its remaining power is the power asked for. */
  predicate Pending(result: IPInt, base: IPInt, exp: IPInt, power: int)
    requires Signed(exp) >= 0
  {
    Signed(result) * Power(Signed(base), Signed(exp)) == power
  }

  lemma PendingStep(result: IPInt, base: IPInt, exp: IPInt, power: int)
    requires Signed(exp) > 0 && Pending(result, base, exp, power)
    ensures 0 <= Signed(Half(exp)) == Signed(exp) / 2 < Signed(exp)
    ensures Pending(if IsOdd(exp) then Times(result, base) else result, Times(base, base), Half(exp), power)
  {
    SquareStep(Signed(result), Signed(base), Signed(exp));
  }

  /** The answers for a negative exponent. */
  method Negative32(base: IPInt, rhs: IPInt) returns (result: IPInt)
    requires Signed(base) != 0 && Signed(rhs) < 0 && rhs.width + 1 < WIDTH_LIMIT
    ensures result == NegativePower(base, rhs)
  {
    if SameAs(base, 1) {
      result := Small(1);
    } else if SameAs(base, -1) {
      var magnitude := Abs32(rhs);
      result := ParitySign(magnitude);
    } else {
      result := Small(0);
    }
  }

  /** The body of the loop. */
  method Round(result: IPInt, base: IPInt, exp: IPInt, ghost bits: nat) returns (result': IPInt, base': IPInt, exp': IPInt)
    requires exp.width <= 33 && base.width <= bits && result.width <= bits + 1 && 2 * bits + 1 < WIDTH_LIMIT
    ensures result' == if IsOdd(exp) then Times(result, base) else result
    ensures base' == Times(base, base) && exp' == Half(exp)
    ensures base'.width <= 2 * bits && result'.width <= 2 * bits + 1
  {
    result' := result;
    if IsOdd(exp) {
      result' := Product32(result, base);
    }
    SmallWidth(2);
    AsWritten(exp, Small(2), Div);
    exp' := Binop(exp, Small(2), Div);
    base' := Product32(base, base);
  }

  /** `IPInt::exponentiate`, as written. */
  method Exponentiate(this0: IPInt, rhs: IPInt) returns (result: IPInt)
    requires Signed(this0) != 0 || Signed(rhs) >= 0
    requires PowerRoom(this0, rhs)
    ensures Signed(result) == PowerMeaning(Signed(this0), Signed(rhs))
  {
    if IsNegative(rhs) {
      EarlyIsReciprocal(Signed(this0), Signed(rhs));
      result := Negative32(this0, rhs);
      return;
    }
    var base, exp := this0, rhs;
    result := Small(1);
    ghost var power := Power(Signed(this0), Signed(rhs));
    ghost var bits, total := this0.width, Product(this0.width, Signed(rhs));
    SmallWidth(1);
    while !IsZero(exp)
      invariant Signed(exp) >= 0 && Pending(result, base, exp, power)
      invariant bits >= 1 && Product(bits, Signed(exp)) <= total
      invariant base.width <= bits && result.width <= bits + 1
      decreases Signed(exp)
    {
      BudgetStep(bits, Signed(exp), total);
      ExponentWidth(exp);
      PendingStep(result, base, exp, power);
      result, base, exp := Round(result, base, exp, bits);
      bits := 2 * bits;
    }
  }

  // ----- rationals -----

  predicate ReduceRoom(n: IPInt, d: IPInt) {
    n.width + d.width + 2 < WIDTH_LIMIT && 2 * d.width + 2 < WIDTH_LIMIT
  }

  /** The gcd is at most one bit wider than a number it divides. */
  lemma DivisorNoLarger(g: int, a: int)
    requires Divides(g, a) && a != 0
    ensures Abs(g) <= Abs(a)
  {
    var k :| a == Product(g, k);
    FactorNoLarger(g, k);
  }

  lemma FactorNoLarger(g: int, k: int)
    requires g * k != 0
    ensures Abs(g) <= Abs(g * k)
  {
    MulMonotone(1, Abs(k), Abs(g));
    MulNeg(g, k);
    assert Abs(k) * Abs(g) == Abs(g * k);
  }

  /** `IPRational(IPInt n, IPInt d)` */
  method Construct(n: IPInt, d: IPInt) returns (q: Fraction)
    requires Signed(d) != 0 && ReduceRoom(n, d)
    ensures q == Reduced(n, d)
    ensures Lowest(q) && Value(q) == Ratio(Signed(n), Signed(d))
  {
    ReducedIsLowest(n, d);
    var gcd := Gcd(n, d);
    EuclidIsGreatest(n, d, 1);
    DivisorNoLarger(Signed(gcd), Signed(d));
    NoLarger(gcd, d);
    AsWritten(n, gcd, Div);
    AsWritten(d, gcd, Div);
    QuotientWidth(n, gcd);
    QuotientWidth(d, gcd);
    var numerator, denominator := Binop(n, gcd, Div), Binop(d, gcd, Div);
    if IsNegative(denominator) {
      SmallWidth(-1);
      AsWritten(numerator, Small(-1), Mul);
      AsWritten(denominator, Small(-1), Mul);
      numerator := Binop(numerator, Small(-1), Mul);
      denominator := Binop(denominator, Small(-1), Mul);
    }
    q := Fraction(numerator, denominator);
  }

  function Bits4(l: Fraction, r: Fraction): nat {
    l.numerator.width + l.denominator.width + r.numerator.width + r.denominator.width
  }

  /** No intermediate of an operation on the two asks for 2^32 bits. */
  predicate OperateRoom(l: Fraction, r: Fraction) {
    2 * Bits4(l, r) + 2 < WIDTH_LIMIT
  }

  /** `binop` */
  method Arithmetic32(l: Fraction, r: Fraction, op: RationalOp) returns (q: Fraction)
    requires Signed(l.denominator) != 0 && Signed(r.denominator) != 0
    requires op.RDiv? ==> Signed(r.numerator) != 0
    requires OperateRoom(l, r)
    ensures q == Operate(l, r, op)
  {
    PartsDefined(l, r, op);
    var n, d;
    if op.RMul? {
      n := Product32(l.numerator, r.numerator);
      d := Product32(l.denominator, r.denominator);
    } else if op.RDiv? {
      n := Product32(l.numerator, r.denominator);
      d := Product32(l.denominator, r.numerator);
    } else {
      var x := Product32(l.numerator, r.denominator);
      var y := Product32(r.numerator, l.denominator);
      SumWidths(x, y);
      if op.RAdd? {
        AsWritten(x, y, Add);
        n := Binop(x, y, Add);
      } else {
        AsWritten(x, y, Sub);
        n := Binop(x, y, Sub);
      }
      d := Product32(l.denominator, r.denominator);
    }
    q := Construct(n, d);
  }

  /** `operator+`, `operator-`, `operator*`, `operator/` on numbers in lowest terms. */
  method ArithmeticExact(l: Fraction, r: Fraction, op: RationalOp) returns (q: Fraction)
    requires Lowest(l) && Lowest(r) && (op.RDiv? ==> Signed(r.numerator) != 0) && OperateRoom(l, r)
    ensures Lowest(q) && (op.RDiv? ==> Value(r) != 0.0) && Value(q) == RealMeaning(op, Value(l), Value(r))
  {
    OperateExact(l, r, op);
    q := Arithmetic32(l, r, op);
  }

  ghost predicate RealOrder(op: CmpOp, x: real, y: real) {
    match op
    case Sgt => x > y
    case Sge => x >= y
    case Slt => x < y
    case Sle => x <= y
  }

  /** `cmp`, in the source's order of tests. */
  method Compare32(l: Fraction, r: Fraction, op: CmpOp) returns (b: bool)
    requires Lowest(l) && Lowest(r)
    requires Room(l.numerator, r.denominator) && Room(l.denominator, r.numerator)
    ensures b <==> RealOrder(op, Value(l), Value(r))
  {
    CompareIsValueOrder(l, r);
    var x := Product32(l.numerator, r.denominator);
    var y := Product32(l.denominator, r.numerator);
    var greater := Cmp(x, y, Sgt);
    b := match op
      case Sgt => greater
      case Sge => Equals(l, r) || greater
      case Slt => !greater && !Equals(l, r)
      case Sle => Equals(l, r) || (!greater && !Equals(l, r));
  }

  /** `IPRational::abs` */
  method Magnitude32(q: Fraction) returns (m: Fraction)
    requires Lowest(q) && 2 * (q.numerator.width + q.denominator.width) + 8 < WIDTH_LIMIT
    ensures Lowest(m) && Value(m) == if Value(q) < 0.0 then -Value(q) else Value(q)
  {
    MagnitudeExact(q);
    if IsNegative(q.numerator) {
      SmallWidth(-1);
      SmallWidth(1);
      m := Arithmetic32(Whole(Small(-1)), q, RMul);
    } else {
      m := q;
    }
  }
}

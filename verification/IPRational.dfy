/**
 Unbounded rationals (Support/lib/IPRational.cpp): numerator and denominator divided by their gcd and
 the sign moved to the numerator.
 */
module IPRationals {
  import opened Common
  import opened Arithmetic
  import opened FixedWidth
  import opened IPInts
  import opened IPIntAlgorithms

  datatype Fraction = Fraction(numerator: IPInt, denominator: IPInt)

  ghost predicate Coprime(a: int, b: int) {
    forall c | Divides(c, a) && Divides(c, b) :: c == 1 || c == -1
  }

  /** Positive denominator, no common factor. */
  ghost predicate Lowest(q: Fraction) {
    Signed(q.denominator) > 0 && Coprime(Signed(q.numerator), Signed(q.denominator))
  }

  /** The number a fraction stands for. */
  ghost function Value(q: Fraction): real
    requires Signed(q.denominator) != 0
  {
    Ratio(Signed(q.numerator), Signed(q.denominator))
  }

  ghost function Ratio(n: int, d: int): real
    requires d != 0
  {
    n as real / d as real
  }

  /** What the constructor from two integers leaves in the two fields. */
  function Reduced(n: IPInt, d: IPInt): Fraction
    requires Signed(d) != 0
  {
    EuclidIsGreatest(n, d, 1);
    var gcd := Euclid(n, d);
    var numerator, denominator := Quotient(n, gcd), Quotient(d, gcd);
    if IsNegative(denominator)
    then Fraction(Times(numerator, Small(-1)), Times(denominator, Small(-1)))
    else Fraction(numerator, denominator)
  }

  /** `IPRational(const IPInt &)` */
  function Whole(n: IPInt): (q: Fraction)
    ensures Lowest(q) && Value(q) == Signed(n) as real
  {
    OneIsCoprime(Signed(n));
    Fraction(n, Small(1))
  }

  lemma OneIsCoprime(a: int)
    ensures Coprime(a, 1)
  {
    forall c | Divides(c, a) && Divides(c, 1) ensures c == 1 || c == -1 {
      var k :| 1 == Product(c, k);
      UnitFactor(c, k);
    }
  }

  lemma UnitFactor(c: int, k: int)
    requires c * k == 1
    ensures c == 1 || c == -1
  {
    if c > 1 {
      MulSign(k, c);
    } else if c < -1 {
      MulSign(k, -c);
      MulNeg(c, k);
    }
  }

  // ----- reduction -----

  lemma ExactQuotient(g: int, a: int)
    requires g != 0
    ensures TDiv(Product(g, a), g) == a
  {
    var n := Product(g, a);
    var q, rem := TDiv(n, g), TRem(n, g);
    DivisionIdentity(n, g);
    TRemBounds(n, g);
    SameQuotient(g, a, q, rem);
  }

  lemma SameQuotient(g: int, a: int, q: int, rem: int)
    requires g * a == g * q + rem && Abs(rem) < Abs(g)
    ensures q == a
  {
    var e := a - q;
    assert g * e == g * a - g * q;
    if e != 0 {
      SmallMultiple(g, e);
    }
  }

  lemma SmallMultiple(g: int, e: int)
    requires e != 0
    ensures Abs(g * e) >= Abs(g)
  {
    if g == 0 { return; }
    MulSign(e, Abs(g));
    MulNeg(g, e);
  }

  /** n and d share no factor beyond their gcd. */
  lemma QuotientsCoprime(n: IPInt, d: IPInt, a: int, b: int)
    requires var g := Signed(Euclid(n, d)); g != 0 && Signed(n) == Product(g, a) && Signed(d) == Product(g, b)
    ensures Coprime(a, b)
  {
    forall c | Divides(c, a) && Divides(c, b) ensures c == 1 || c == -1 {
      CommonIsUnit(n, d, a, b, c, Signed(Euclid(n, d)));
    }
  }

  lemma CommonIsUnit(n: IPInt, d: IPInt, a: int, b: int, c: int, g: int)
    requires g == Signed(Euclid(n, d)) != 0 && Signed(n) == Product(g, a) && Signed(d) == Product(g, b)
    requires Divides(c, a) && Divides(c, b)
    ensures c == 1 || c == -1
  {
    ScaleDivisor(g, c, a);
    ScaleDivisor(g, c, b);
    EuclidIsGreatest(n, d, g * c);
    var k :| g == Product(g * c, k);
    Cancel(g, c, k);
    UnitFactor(c, k);
  }

  lemma ScaleDivisor(g: int, c: int, a: int)
    requires Divides(c, a)
    ensures Divides(g * c, Product(g, a))
  {
    var x :| a == Product(c, x);
    assert g * (c * x) == (g * c) * x;
    assert Product(g, a) == Product(g * c, x);
  }

  lemma Cancel(g: int, c: int, k: int)
    requires g != 0 && g == (g * c) * k
    ensures c * k == 1
  {
    var e := c * k - 1;
    assert g * (c * k) == (g * c) * k;
    assert g * e == g * (c * k) - g;
    if e != 0 {
      NonZeroProduct(g, e);
    }
  }

  lemma NegDivides(c: int, a: int, b: int)
    requires Divides(c, a) && b == -a
    ensures Divides(c, b)
  {
    var x :| a == Product(c, x);
    MulNeg(c, x);
    assert b == Product(c, -x);
  }

  lemma NegationCoprime(a: int, b: int, a': int, b': int)
    requires Coprime(a, b) && a' == -a && b' == -b
    ensures Coprime(a', b')
  {
    forall c | Divides(c, a') && Divides(c, b') ensures c == 1 || c == -1 {
      NegDivides(c, a', a);
      NegDivides(c, b', b);
    }
  }

  lemma QuotientValues(n: IPInt, d: IPInt) returns (a: int, b: int)
    requires Signed(d) != 0
    ensures var g := Euclid(n, d);
            && Signed(g) != 0 && Signed(n) == Product(Signed(g), a) && Signed(d) == Product(Signed(g), b)
            && Signed(Quotient(n, g)) == a && Signed(Quotient(d, g)) == b && b != 0
  {
    EuclidIsGreatest(n, d, 1);
    var g := Signed(Euclid(n, d));
    a :| Signed(n) == Product(g, a);
    b :| Signed(d) == Product(g, b);
    ExactQuotient(g, a);
    ExactQuotient(g, b);
  }

  /** The constructor yields lowest terms and keeps the value, whatever the signs. */
  lemma ReducedIsLowest(n: IPInt, d: IPInt)
    requires Signed(d) != 0
    ensures Lowest(Reduced(n, d)) && Value(Reduced(n, d)) == Ratio(Signed(n), Signed(d))
  {
    var a, b := QuotientValues(n, d);
    QuotientsCoprime(n, d, a, b);
    ReducedFields(n, d, a, b);
    SignMoved(a, b);
    ScaledRatio(a, b, Signed(Euclid(n, d)));
  }

  lemma SignMoved(a: int, b: int)
    requires b != 0 && Coprime(a, b)
    ensures Coprime(if b < 0 then -a else a, if b < 0 then -b else b)
    ensures Ratio(if b < 0 then -a else a, if b < 0 then -b else b) == Ratio(a, b)
  {
    NegationCoprime(a, b, -a, -b);
    ScaledRatio(a, b, -1);
  }

  lemma ReducedFields(n: IPInt, d: IPInt, a: int, b: int)
    requires Signed(d) != 0 && Signed(Euclid(n, d)) != 0
    requires Signed(Quotient(n, Euclid(n, d))) == a && Signed(Quotient(d, Euclid(n, d))) == b
    ensures Signed(Reduced(n, d).numerator) == (if b < 0 then -a else a)
    ensures Signed(Reduced(n, d).denominator) == (if b < 0 then -b else b)
  {
  }

  lemma ScaledRatio(a: int, b: int, g: int)
    requires b != 0 && g != 0
    ensures g * b != 0 && Ratio(g * a, g * b) == Ratio(a, b)
  {
    NonZeroProduct(g, b);
    var x, y, z := a as real, b as real, g as real;
    assert (g * a) as real == z * x && (g * b) as real == z * y;
    RealScale(x, y, z);
  }

  lemma RealScale(x: real, y: real, z: real)
    requires y != 0.0 && z != 0.0 && z * y != 0.0
    ensures (z * x) / (z * y) == x / y
  {
    var q := x / y;
    assert q * y == x;
    assert q * (z * y) == z * x;
  }

  // ----- equality is equality of values -----

  predicate Equals(l: Fraction, r: Fraction) {
    Equal(l.numerator, r.numerator) && Equal(l.denominator, r.denominator)
  }

  function Combined(x: int, a: int, y: int, b: int): int {
    x * a + y * b
  }

  lemma {:induction false} Bezout(l: IPInt, r: IPInt) returns (x: int, y: int)
    ensures Combined(x, Signed(l), y, Signed(r)) == Signed(Euclid(l, r))
    decreases Abs(Signed(r))
  {
    if IsZero(r) {
      x, y := 1, 0;
    } else {
      TRemBounds(Signed(l), Signed(r));
      var rest := Remainder(l, r);
      var u, v := Bezout(r, rest);
      x, y := v, u - TDiv(Signed(l), Signed(r)) * v;
      EuclidStep(l, r);
      BezoutBack(Signed(l), Signed(r), Signed(rest), u, v, Signed(Euclid(l, r)));
    }
  }

  lemma BezoutBack(a: int, b: int, rest: int, u: int, v: int, g: int)
    requires b != 0 && rest == TRem(a, b) && Combined(u, b, v, rest) == g
    ensures Combined(v, a, u - TDiv(a, b) * v, b) == g
  {
    DivisionIdentity(a, b);
    BezoutStep(a, b, TDiv(a, b), u, v, rest);
  }

  lemma EuclidStep(l: IPInt, r: IPInt)
    requires !IsZero(r)
    ensures Signed(r) != 0 && Euclid(l, r) == Euclid(r, Remainder(l, r))
  {
  }

  lemma BezoutStep(a: int, b: int, q: int, u: int, v: int, rem: int)
    requires a == b * q + rem
    ensures Combined(v, a, u - q * v, b) == Combined(u, b, v, rem)
  {
  }

  /** A factor coprime to one side of a product divides the other. */
  lemma CoprimeDivides(n: IPInt, d: IPInt, m: int, k: int)
    requires Coprime(Signed(n), Signed(d)) && Signed(n) * m == Signed(d) * k
    ensures Divides(Signed(d), m)
  {
    var a, b, g := Signed(n), Signed(d), Signed(Euclid(n, d));
    var x, y := Bezout(n, d);
    EuclidIsGreatest(n, d, 1);
    assert g == 1 || g == -1;
    DividesThrough(a, b, m, k, x, y, g);
  }

  lemma DividesThrough(a: int, b: int, m: int, k: int, x: int, y: int, g: int)
    requires a * m == b * k && x * a + y * b == g && (g == 1 || g == -1)
    ensures Divides(b, m)
  {
    assert g * m == x * (a * m) + (y * b) * m == b * (x * k + y * m);
    if g == 1 {
      assert m == Product(b, x * k + y * m);
    } else {
      MulNeg(b, x * k + y * m);
      assert m == Product(b, -(x * k + y * m));
    }
  }

  lemma MutualDivisors(d: int, e: int)
    requires d > 0 && e > 0 && Divides(d, e) && Divides(e, d)
    ensures d == e
  {
    var k :| e == Product(d, k);
    var j :| d == Product(e, j);
    if k <= 0 { MulSign(-k, d); MulNeg(d, -k); }
    if j <= 0 { MulSign(-j, e); MulNeg(e, -j); }
    SmallMultiple(d, k);
    SmallMultiple(e, j);
  }

  /** Lowest terms are unique. */
  lemma LowestIsUnique(l: Fraction, r: Fraction)
    requires Lowest(l) && Lowest(r)
    requires Signed(l.numerator) * Signed(r.denominator) == Signed(l.denominator) * Signed(r.numerator)
    ensures Signed(l.numerator) == Signed(r.numerator) && Signed(l.denominator) == Signed(r.denominator)
  {
    var a, b, c, d := Signed(l.numerator), Signed(l.denominator), Signed(r.numerator), Signed(r.denominator);
    CoprimeDivides(l.numerator, l.denominator, d, c);
    CoprimeDivides(r.numerator, r.denominator, b, a);
    MutualDivisors(b, d);
    SameFactor(a, c, b);
  }

  lemma SameFactor(a: int, c: int, b: int)
    requires b > 0 && a * b == b * c
    ensures a == c
  {
    assert (a - c) * b == 0;
    if a != c {
      NonZeroProduct(a - c, b);
    }
  }

  /** On lowest terms `==`, which compares fields, is equality of values. */
  lemma EqualsIsValueEquality(l: Fraction, r: Fraction)
    requires Lowest(l) && Lowest(r)
    ensures Equals(l, r) <==> Value(l) == Value(r)
  {
    EqualIsValueEquality(l.numerator, r.numerator);
    EqualIsValueEquality(l.denominator, r.denominator);
    if Value(l) == Value(r) {
      CrossMultiply(Signed(l.numerator), Signed(l.denominator), Signed(r.numerator), Signed(r.denominator));
      LowestIsUnique(l, r);
    }
  }

  /** Ratios with positive denominators compare like their cross products. */
  lemma CrossMultiply(a: int, b: int, c: int, d: int)
    requires b > 0 && d > 0
    ensures Ratio(a, b) == Ratio(c, d) <==> a * d == c * b
    ensures Ratio(a, b) < Ratio(c, d) <==> a * d < c * b
  {
    var x, y := a as real, c as real;
    var u, v := b as real, d as real;
    assert (a * d) as real == x * v && (c * b) as real == y * u;
    RealCross(x, u, y, v);
  }

  lemma RealCross(a: real, b: real, c: real, d: real)
    requires b > 0.0 && d > 0.0
    ensures a / b == c / d <==> a * d == c * b
    ensures a / b < c / d <==> a * d < c * b
  {
    var p, q := a / b, c / d;
    assert p * b == a && q * d == c;
    assert a * d == p * (b * d) && c * b == q * (b * d) && b * d > 0.0;
    if p < q {
      assert (q - p) * (b * d) > 0.0;
    } else if p > q {
      assert (p - q) * (b * d) > 0.0;
    }
  }

  // ----- order -----

  predicate Greater(l: Fraction, r: Fraction) {
    Cmp(Times(l.numerator, r.denominator), Times(l.denominator, r.numerator), Sgt)
  }

  /** `cmp`: less is "not greater and not equal", the rest is built from these. */
  function Compare(l: Fraction, r: Fraction, op: CmpOp): bool {
    match op
    case Sgt => Greater(l, r)
    case Sge => Equals(l, r) || Greater(l, r)
    case Slt => !Greater(l, r) && !Equals(l, r)
    case Sle => Equals(l, r) || (!Greater(l, r) && !Equals(l, r))
  }

  /** All four comparisons are the order of the values, hence a total order on values. */
  lemma CompareIsValueOrder(l: Fraction, r: Fraction)
    requires Lowest(l) && Lowest(r)
    ensures Compare(l, r, Sgt) <==> Value(l) > Value(r)
    ensures Compare(l, r, Sge) <==> Value(l) >= Value(r)
    ensures Compare(l, r, Slt) <==> Value(l) < Value(r)
    ensures Compare(l, r, Sle) <==> Value(l) <= Value(r)
  {
    EqualsIsValueEquality(l, r);
    CmpIsValueOrder(Times(l.numerator, r.denominator), Times(l.denominator, r.numerator));
    CrossMultiply(Signed(r.numerator), Signed(r.denominator), Signed(l.numerator), Signed(l.denominator));
  }

  // ----- arithmetic -----

  datatype RationalOp = RAdd | RSub | RMul | RDiv

  /** Numerator and denominator of the result, before it is reduced. */
  function Parts(l: Fraction, r: Fraction, op: RationalOp): (IPInt, IPInt) {
    var lN, lD, rN, rD := l.numerator, l.denominator, r.numerator, r.denominator;
    match op
    case RAdd => (Plus(Times(lN, rD), Times(rN, lD)), Times(lD, rD))
    case RSub => (Minus(Times(lN, rD), Times(rN, lD)), Times(lD, rD))
    case RMul => (Times(lN, rN), Times(lD, rD))
    case RDiv => (Times(lN, rD), Times(lD, rN))
  }

  lemma PartsDefined(l: Fraction, r: Fraction, op: RationalOp)
    requires Signed(l.denominator) != 0 && Signed(r.denominator) != 0
    requires op.RDiv? ==> Signed(r.numerator) != 0
    ensures Signed(Parts(l, r, op).1) != 0
  {
    NonZeroProduct(Signed(l.denominator), Signed(r.denominator));
    if op.RDiv? {
      NonZeroProduct(Signed(l.denominator), Signed(r.numerator));
    }
  }

  function Operate(l: Fraction, r: Fraction, op: RationalOp): Fraction
    requires Signed(l.denominator) != 0 && Signed(r.denominator) != 0
    requires op.RDiv? ==> Signed(r.numerator) != 0
  {
    PartsDefined(l, r, op);
    var (n, d) := Parts(l, r, op);
    Reduced(n, d)
  }

  ghost function RealMeaning(op: RationalOp, x: real, y: real): real
    requires op.RDiv? ==> y != 0.0
  {
    match op
    case RAdd => x + y
    case RSub => x - y
    case RMul => x * y
    case RDiv => x / y
  }

  lemma SumRatio(a: int, b: int, c: int, d: int)
    requires b != 0 && d != 0
    ensures b * d != 0 && Ratio(a * d + c * b, b * d) == RealMeaning(RAdd, Ratio(a, b), Ratio(c, d))
  {
    NonZeroProduct(b, d);
    var x, u, y, v := a as real, b as real, c as real, d as real;
    assert (a * d) as real == x * v && (c * b) as real == y * u && (b * d) as real == u * v;
    RealSum(x, u, y, v);
  }

  lemma DifferenceRatio(a: int, b: int, c: int, d: int)
    requires b != 0 && d != 0
    ensures b * d != 0 && Ratio(a * d - c * b, b * d) == RealMeaning(RSub, Ratio(a, b), Ratio(c, d))
  {
    NonZeroProduct(b, d);
    var x, u, y, v := a as real, b as real, c as real, d as real;
    assert (a * d) as real == x * v && (c * b) as real == y * u && (b * d) as real == u * v;
    RealSum(x, u, y, v);
  }

  lemma RealSum(x: real, u: real, y: real, v: real)
    requires u != 0.0 && v != 0.0 && u * v != 0.0
    ensures (x * v + y * u) / (u * v) == x / u + y / v
    ensures (x * v - y * u) / (u * v) == x / u - y / v
  {
    var p, q := x / u, y / v;
    assert p * u == x && q * v == y;
    assert (p + q) * (u * v) == x * v + y * u;
    assert (p - q) * (u * v) == x * v - y * u;
  }

  lemma ProductRatio(a: int, b: int, c: int, d: int)
    requires b != 0 && d != 0
    ensures b * d != 0 && Ratio(a * c, b * d) == RealMeaning(RMul, Ratio(a, b), Ratio(c, d))
  {
    NonZeroProduct(b, d);
    var x, u, y, v := a as real, b as real, c as real, d as real;
    assert (a * c) as real == x * y && (b * d) as real == u * v;
    RealProduct(x, u, y, v);
  }

  lemma QuotientRatio(a: int, b: int, c: int, d: int)
    requires b != 0 && d != 0 && c != 0
    ensures b * c != 0 && Ratio(c, d) != 0.0
    ensures Ratio(a * d, b * c) == RealMeaning(RDiv, Ratio(a, b), Ratio(c, d))
  {
    NonZeroProduct(b, c);
    var x, u, y, v := a as real, b as real, c as real, d as real;
    assert (a * d) as real == x * v && (b * c) as real == u * y;
    RealQuotient(x, u, y, v);
  }

  lemma RealProduct(x: real, u: real, y: real, v: real)
    requires u != 0.0 && v != 0.0 && u * v != 0.0
    ensures (x * y) / (u * v) == (x / u) * (y / v)
  {
    var p, q := x / u, y / v;
    assert p * u == x && q * v == y;
    assert (p * q) * (u * v) == x * y;
  }

  lemma RealQuotient(x: real, u: real, y: real, v: real)
    requires u != 0.0 && v != 0.0 && y != 0.0 && u * y != 0.0
    ensures y / v != 0.0 && (x * v) / (u * y) == (x / u) / (y / v)
  {
    var p, q := x / u, y / v;
    assert p * u == x && q * v == y;
    var t := p / q;
    assert t * q == p;
    assert t * (u * y) == x * v;
  }

  lemma ReducedHasValue(n: IPInt, d: IPInt, v: real)
    requires Signed(d) != 0 && Ratio(Signed(n), Signed(d)) == v
    ensures Lowest(Reduced(n, d)) && Value(Reduced(n, d)) == v
  {
    ReducedIsLowest(n, d);
  }

  ghost predicate Stands(p: (IPInt, IPInt), v: real) {
    Signed(p.1) != 0 && Ratio(Signed(p.0), Signed(p.1)) == v
  }

  lemma AddOf(n: int, m: int, a: int, b: int, c: int, d: int)
    requires b != 0 && d != 0 && n == a * d + c * b && m == b * d
    ensures m != 0 && Ratio(n, m) == RealMeaning(RAdd, Ratio(a, b), Ratio(c, d))
  {
    SumRatio(a, b, c, d);
  }

  lemma AddParts(l: Fraction, r: Fraction)
    requires Signed(l.denominator) != 0 && Signed(r.denominator) != 0
    ensures Stands(Parts(l, r, RAdd), RealMeaning(RAdd, Value(l), Value(r)))
  {
    var p := Parts(l, r, RAdd);
    AddOf(Signed(p.0), Signed(p.1), Signed(l.numerator), Signed(l.denominator), Signed(r.numerator), Signed(r.denominator));
  }

  lemma SubOf(n: int, m: int, a: int, b: int, c: int, d: int)
    requires b != 0 && d != 0 && n == a * d - c * b && m == b * d
    ensures m != 0 && Ratio(n, m) == RealMeaning(RSub, Ratio(a, b), Ratio(c, d))
  {
    DifferenceRatio(a, b, c, d);
  }

  lemma SubParts(l: Fraction, r: Fraction)
    requires Signed(l.denominator) != 0 && Signed(r.denominator) != 0
    ensures Stands(Parts(l, r, RSub), RealMeaning(RSub, Value(l), Value(r)))
  {
    var p := Parts(l, r, RSub);
    SubOf(Signed(p.0), Signed(p.1), Signed(l.numerator), Signed(l.denominator), Signed(r.numerator), Signed(r.denominator));
  }

  lemma MulOf(n: int, m: int, a: int, b: int, c: int, d: int)
    requires b != 0 && d != 0 && n == a * c && m == b * d
    ensures m != 0 && Ratio(n, m) == RealMeaning(RMul, Ratio(a, b), Ratio(c, d))
  {
    ProductRatio(a, b, c, d);
  }

  lemma MulParts(l: Fraction, r: Fraction)
    requires Signed(l.denominator) != 0 && Signed(r.denominator) != 0
    ensures Stands(Parts(l, r, RMul), RealMeaning(RMul, Value(l), Value(r)))
  {
    var p := Parts(l, r, RMul);
    MulOf(Signed(p.0), Signed(p.1), Signed(l.numerator), Signed(l.denominator), Signed(r.numerator), Signed(r.denominator));
  }

  lemma DivOf(n: int, m: int, a: int, b: int, c: int, d: int)
    requires b != 0 && d != 0 && c != 0 && n == a * d && m == b * c
    ensures Ratio(c, d) != 0.0 && m != 0 && Ratio(n, m) == RealMeaning(RDiv, Ratio(a, b), Ratio(c, d))
  {
    QuotientRatio(a, b, c, d);
  }

  lemma DivParts(l: Fraction, r: Fraction)
    requires Signed(l.denominator) != 0 && Signed(r.denominator) != 0 && Signed(r.numerator) != 0
    ensures Value(r) != 0.0 && Stands(Parts(l, r, RDiv), RealMeaning(RDiv, Value(l), Value(r)))
  {
    var p := Parts(l, r, RDiv);
    DivOf(Signed(p.0), Signed(p.1), Signed(l.numerator), Signed(l.denominator), Signed(r.numerator), Signed(r.denominator));
  }

  lemma PartsExact(l: Fraction, r: Fraction, op: RationalOp)
    requires Signed(l.denominator) != 0 && Signed(r.denominator) != 0
    requires op.RDiv? ==> Signed(r.numerator) != 0
    ensures op.RDiv? ==> Value(r) != 0.0
    ensures Stands(Parts(l, r, op), RealMeaning(op, Value(l), Value(r)))
  {
    match op
    case RAdd => AddParts(l, r);
    case RSub => SubParts(l, r);
    case RMul => MulParts(l, r);
    case RDiv => DivParts(l, r);
  }

  /** + - * / yield lowest terms and are exact. */
  lemma OperateExact(l: Fraction, r: Fraction, op: RationalOp)
    requires Lowest(l) && Lowest(r) && (op.RDiv? ==> Signed(r.numerator) != 0)
    ensures Lowest(Operate(l, r, op))
    ensures op.RDiv? ==> Value(r) != 0.0
    ensures Value(Operate(l, r, op)) == RealMeaning(op, Value(l), Value(r))
  {
    PartsExact(l, r, op);
    var (n, d) := Parts(l, r, op);
    ReducedHasValue(n, d, RealMeaning(op, Value(l), Value(r)));
  }

  /** `IPRational::abs` */
  function Magnitude(q: Fraction): Fraction
    requires Signed(q.denominator) != 0
  {
    if IsNegative(q.numerator) then Operate(Whole(Small(-1)), q, RMul) else q
  }

  lemma SignOfRatio(a: int, b: int)
    requires b > 0
    ensures Ratio(a, b) < 0.0 <==> a < 0
  {
    CrossMultiply(a, b, 0, 1);
  }

  lemma MinusOneTimes(m: real, x: real)
    requires m == -1.0
    ensures RealMeaning(RMul, m, x) == -x
  {
  }

  lemma MagnitudeExact(q: Fraction)
    requires Lowest(q)
    ensures Lowest(Magnitude(q))
    ensures Value(Magnitude(q)) == if Value(q) < 0.0 then -Value(q) else Value(q)
  {
    var a, b := Signed(q.numerator), Signed(q.denominator);
    SignOfRatio(a, b);
    OperateExact(Whole(Small(-1)), q, RMul);
    MinusOneTimes(Value(Whole(Small(-1))), Value(q));
  }
}

/**
 The loops of Support/lib/IPInt.cpp: Euclid's algorithm and fast exponentiation.  Remainder and masking
 are as written; the operators that add widths are taken at their full width here, and as written in
 `IPWritten`.
 */
module IPIntAlgorithms {
  import opened Common
  import opened Arithmetic
  import opened FixedWidth
  import opened IPInts

  function Small(v: int): (r: IPInt)
    requires -2 <= v < 3
    ensures Signed(r) == v
  {
    SmallFits(v);
    LitValue(v);
    Lit(v)
  }

  predicate IsZero(x: IPInt)
    ensures IsZero(x) <==> Signed(x) == 0
  {
    EqualIsValueEquality(x, Small(0));
    Equal(x, Small(0))
  }

  // ----- operators, by value -----

  function Plus(l: IPInt, r: IPInt): (s: IPInt)
    ensures Signed(s) == Signed(l) + Signed(r)
  {
    WideExact(l, r, Add);
    WideBinop(l, r, Add)
  }

  function Minus(l: IPInt, r: IPInt): (s: IPInt)
    ensures Signed(s) == Signed(l) - Signed(r)
  {
    WideExact(l, r, Sub);
    WideBinop(l, r, Sub)
  }

  function Times(l: IPInt, r: IPInt): (s: IPInt)
    ensures Signed(s) == Signed(l) * Signed(r)
  {
    WideExact(l, r, Mul);
    WideBinop(l, r, Mul)
  }

  function Quotient(l: IPInt, r: IPInt): (s: IPInt)
    requires Signed(r) != 0
    ensures Signed(s) == TDiv(Signed(l), Signed(r))
  {
    WideExact(l, r, Div);
    WideBinop(l, r, Div)
  }

  function Remainder(l: IPInt, r: IPInt): (s: IPInt)
    requires Signed(r) != 0
    ensures Signed(s) == TRem(Signed(l), Signed(r))
  {
    OperandsKept(l, r, Mod);
    BinopExact(l, r, Mod);
    Binop(l, r, Mod)
  }

  function Absolute(x: IPInt): (s: IPInt)
    ensures Signed(s) == Abs(Signed(x))
  {
    if IsNegative(x) then Minus(Small(0), x) else x
  }

  // ----- gcd -----

  ghost predicate Divides(d: int, n: int) {
    exists k: int :: n == Product(d, k)
  }

  function Product(a: int, b: int): int {
    a * b
  }

  function Euclid(l: IPInt, r: IPInt): IPInt
    decreases Abs(Signed(r))
  {
    if IsZero(r) then l
    else
      TRemBounds(Signed(l), Signed(r));
      Euclid(r, Remainder(l, r))
  }

  /** `IPInt::gcd`; the magnitude of the truncated remainder is the variant. */
  method Gcd(l0: IPInt, r0: IPInt) returns (l: IPInt)
    ensures l == Euclid(l0, r0)
  {
    l := l0;
    var r := r0;
    while !IsZero(r)
      invariant Euclid(l, r) == Euclid(l0, r0)
      decreases Abs(Signed(r))
    {
      TRemBounds(Signed(l), Signed(r));
      var tmp := r;
      r := Remainder(l, r);
      l := tmp;
    }
  }

  lemma DividesCombination(d: int, a: int, b: int, q: int)
    requires Divides(d, a) && Divides(d, b)
    ensures Divides(d, a + q * b) && Divides(d, a - q * b)
  {
    var x :| a == Product(d, x);
    var y :| b == Product(d, y);
    assert q * (d * y) == d * (q * y);
    assert a + q * b == Product(d, x + q * y);
    assert a - q * b == Product(d, x - q * y);
  }

  lemma DividesSelf(a: int)
    ensures Divides(a, a) && Divides(a, 0)
  {
    assert a == Product(a, 1);
    assert 0 == Product(a, 0);
  }

  /** The loop's result divides both numbers, and every common divisor divides it. */
  lemma {:induction false} EuclidIsGreatest(l: IPInt, r: IPInt, d: int)
    ensures var g := Signed(Euclid(l, r));
            && Divides(g, Signed(l)) && Divides(g, Signed(r))
            && (Divides(d, Signed(l)) && Divides(d, Signed(r)) ==> Divides(d, g))
            && (g == 0 <==> Signed(l) == 0 && Signed(r) == 0)
    decreases Abs(Signed(r))
  {
    var a, b := Signed(l), Signed(r);
    if b == 0 {
      DividesSelf(a);
    } else {
      TRemBounds(a, b);
      DivisionIdentity(a, b);
      var rem, q := Remainder(l, r), TDiv(a, b);
      EuclidIsGreatest(r, rem, d);
      var g := Signed(Euclid(r, rem));
      DividesCombination(g, Signed(rem), b, q);
      if Divides(d, a) && Divides(d, b) {
        DividesCombination(d, a, b, q);
      }
    }
  }

  // ----- exponentiation -----

  function Power(b: int, n: nat): int {
    if n == 0 then 1 else b * Power(b, n - 1)
  }

  lemma {:induction false} PowerOfSquare(b: int, n: nat)
    ensures Power(b * b, n) == Power(b, 2 * n)
  {
    if n > 0 {
      PowerOfSquare(b, n - 1);
      assert Power(b, 2 * n) == b * (b * Power(b, 2 * n - 2));
    }
  }

  lemma PowerHalves(b: int, n: nat)
    ensures Power(b, n) == (if n % 2 == 1 then b else 1) * Power(b * b, n / 2)
  {
    PowerOfSquare(b, n / 2);
  }

  /** What `a ** n` means: the power, or for negative n its reciprocal rounded toward zero. */
  function PowerMeaning(b: int, n: int): int
    requires b != 0 || n >= 0
  {
    if n >= 0 then Power(b, n)
    else
      PowerNonZero(b, -n);
      TDiv(1, Power(b, -n))
  }

  lemma {:induction false} PowerNonZero(b: int, n: nat)
    requires b != 0
    ensures Power(b, n) != 0
  {
    if n > 0 {
      PowerNonZero(b, n - 1);
      NonZeroProduct(b, Power(b, n - 1));
    }
  }

  lemma NonZeroProduct(a: int, b: int)
    requires a != 0 && b != 0
    ensures a * b != 0
  {
  }

  lemma {:induction false} PowerOfUnits(n: nat)
    ensures Power(1, n) == 1
    ensures Power(-1, n) == if n % 2 == 0 then 1 else -1
  {
    if n > 0 {
      PowerOfUnits(n - 1);
    }
  }

  lemma {:induction false} PowerLarge(b: int, n: nat)
    requires Abs(b) >= 2 && n > 0
    ensures Abs(Power(b, n)) >= 2
  {
    if n > 1 {
      PowerLarge(b, n - 1);
      LargeProduct(b, Power(b, n - 1));
    }
  }

  lemma LargeProduct(a: int, b: int)
    requires Abs(a) >= 2 && Abs(b) >= 2
    ensures Abs(a * b) >= 2
  {
    if a > 0 {
      if b > 0 { MulMonotone(2, a, b); } else { MulMonotone(2, a, -b); MulNeg(a, b); }
    } else {
      if b > 0 { MulMonotone(2, -a, b); MulNeg(a, b); } else { MulMonotone(2, -a, -b); MulNeg(a, b); }
    }
  }

  lemma BitOfParity(v: int, k: nat)
    ensures BitOf(v % 2, k) == OnBits(And, BitOf(v, k), BitOf(1, k))
  {
    if k > 0 {
      ConstantBits(k - 1);
      assert 1 / 2 == 0 && (v % 2) / 2 == 0;
    }
  }

  /** `rhs.abs() & 1` is the parity. */
  lemma AndOneIsParity(x: IPInt)
    ensures Signed(Binop(x, Small(1), Bits(And))) == Signed(x) % 2
  {
    var one := Small(1);
    var v := Signed(Binop(x, one, Bits(And)));
    forall k: nat ensures BitOf(v, k) == BitOf(Signed(x) % 2, k) {
      LogicExact(x, one, And, k);
      BitOfParity(Signed(x), k);
    }
    BitsDetermine(v, Signed(x) % 2);
  }

  /** An integer is determined by its unbounded two's-complement expansion. */
  lemma {:induction false} BitsDetermine(a: int, b: int)
    requires forall k: nat :: BitOf(a, k) == BitOf(b, k)
    ensures a == b
    decreases Abs(a) + Abs(b)
  {
    assert BitOf(a, 0) == BitOf(b, 0);
    if !(-1 <= a <= 0 && -1 <= b <= 0) {
      forall k: nat ensures BitOf(a / 2, k) == BitOf(b / 2, k) {
        assert BitOf(a, k + 1) == BitOf(b, k + 1);
      }
      BitsDetermine(a / 2, b / 2);
    }
  }

  /** The answers given early when the exponent is negative. */
  function Early(b: int, n: int): int {
    if b == 1 then 1 else if b == -1 then (if Abs(n) % 2 == 0 then 1 else -1) else 0
  }

  /** They are the truncated reciprocals. */
  lemma EarlyIsReciprocal(b: int, n: int)
    requires n < 0 && b != 0
    ensures PowerMeaning(b, n) == Early(b, n)
  {
    PowerOfUnits(-n);
    if Abs(b) >= 2 {
      PowerLarge(b, -n);
    }
  }

  predicate SameAs(x: IPInt, v: int)
    requires -2 <= v < 3
    ensures SameAs(x, v) <==> Signed(x) == v
  {
    EqualIsValueEquality(x, Small(v));
    Equal(x, Small(v))
  }

  /** `(magnitude & 1) == 0 ? 1 : -1` */
  function ParitySign(magnitude: IPInt): (r: IPInt)
    ensures Signed(r) == if Signed(magnitude) % 2 == 0 then 1 else -1
  {
    AndOneIsParity(magnitude);
    Small(if SameAs(Binop(magnitude, Small(1), Bits(And)), 0) then 1 else -1)
  }

  /** The early answers for a negative exponent. */
  function NegativePower(base: IPInt, rhs: IPInt): (r: IPInt)
    requires Signed(base) != 0 && Signed(rhs) < 0
    ensures Signed(r) == Early(Signed(base), Signed(rhs))
  {
    if SameAs(base, 1) then Small(1)
    else if SameAs(base, -1) then ParitySign(Absolute(rhs))
    else Small(0)
  }

  /** `IPInt::exponentiate`, on operators at their full width. */
  method ExponentiateWide(this0: IPInt, rhs: IPInt) returns (result: IPInt)
    requires Signed(this0) != 0 || Signed(rhs) >= 0
    ensures Signed(result) == PowerMeaning(Signed(this0), Signed(rhs))
  {
    if IsNegative(rhs) {
      EarlyIsReciprocal(Signed(this0), Signed(rhs));
      return NegativePower(this0, rhs);
    }
    var base, exp := this0, rhs;
    result := Small(1);
    while !IsZero(exp)
      invariant Signed(exp) >= 0
      invariant Signed(result) * Power(Signed(base), Signed(exp)) == Power(Signed(this0), Signed(rhs))
      decreases Signed(exp)
    {
      SquareStep(Signed(result), Signed(base), Signed(exp));
      if IsOdd(exp) {
        result := Times(result, base);
      }
      exp := Half(exp);
      base := Times(base, base);
    }
  }

  predicate IsNegative(x: IPInt)
    ensures IsNegative(x) <==> Signed(x) < 0
  {
    CmpIsValueOrder(x, Small(0));
    Cmp(x, Small(0), Slt)
  }

  /** `exp % 2 == 1` */
  predicate IsOdd(x: IPInt)
    ensures IsOdd(x) <==> TRem(Signed(x), 2) == 1
  {
    SameAs(Remainder(x, Small(2)), 1)
  }

  function Half(x: IPInt): (r: IPInt)
    ensures Signed(r) == TDiv(Signed(x), 2)
  {
    Quotient(x, Small(2))
  }

  /** One round of squaring leaves accumulator times remaining power unchanged. */
  lemma SquareStep(acc: int, b: int, n: int)
    requires n > 0
    ensures TRem(n, 2) == n % 2 && TDiv(n, 2) == n / 2 < n
    ensures (if TRem(n, 2) == 1 then acc * b else acc) * Power(b * b, TDiv(n, 2)) == acc * Power(b, n)
  {
    PowerHalves(b, n);
    Reassociate(acc, b, Power(b * b, n / 2));
  }

  lemma Reassociate(x: int, y: int, z: int)
    ensures x * (y * z) == (x * y) * z && x * (1 * z) == x * z
  {
  }
}

/**
 Two's-complement integers of a given width: the arbitrary-width integer class that
 Support/lib/IPInt.cpp wraps.  A value is its width and its bit pattern; every operation works at a
 width and may wrap, saturate or cut bits off.
 */
module FixedWidth {
  import opened Common
  import opened Arithmetic

  function Pow2(n: nat): (p: int)
    ensures p >= 1
  {
    if n == 0 then 1 else 2 * Pow2(n - 1)
  }

  datatype Pattern = Pattern(width: nat, bits: nat)

  predicate Valid(a: Pattern) {
    a.width >= 1 && a.bits < Pow2(a.width)
  }

  type APInt = a: Pattern | Valid(a) witness Pattern(1, 0)

  predicate Negative(a: APInt) {
    a.bits >= Pow2(a.width - 1)
  }

  /** The integer a pattern stands for. */
  function Signed(a: APInt): int {
    if Negative(a) then a.bits - Pow2(a.width) else a.bits
  }

  predicate Fits(v: int, width: nat)
    requires width >= 1
  {
    -Pow2(width - 1) <= v < Pow2(width - 1)
  }

  /** The pattern of v at a width, higher bits lost. */
  function Wrapped(v: int, width: nat): APInt
    requires width >= 1
  {
    Pattern(width, v % Pow2(width))
  }

  function Sext(a: APInt, width: nat): APInt
    requires width >= a.width
  {
    Pow2Monotone(a.width, width);
    Pattern(width, if Negative(a) then a.bits + Pow2(width) - Pow2(a.width) else a.bits)
  }

  /** Without its top bit. */
  function DropTop(a: APInt): APInt
    requires a.width >= 2
  {
    Pattern(a.width - 1, if Negative(a) then a.bits - Pow2(a.width - 1) else a.bits)
  }

  function Trunc(a: APInt, width: nat): (r: APInt)
    requires 1 <= width <= a.width
    ensures r.width == width
    decreases a.width
  {
    if a.width == width then a else Trunc(DropTop(a), width)
  }

  function SextOrTrunc(a: APInt, width: nat): APInt
    requires width >= 1
  {
    if width >= a.width then Sext(a, width) else Trunc(a, width)
  }

  /** The width minus all but one of the leading copies of the sign bit. */
  function SignificantBits(a: APInt): (n: nat)
    ensures 1 <= n <= a.width
    decreases a.width
  {
    if a.width == 1 || Negative(a) != Negative(DropTop(a)) then a.width else SignificantBits(DropTop(a))
  }

  /** Result of the saturating operations. */
  function Saturated(v: int, width: nat): APInt
    requires width >= 1
  {
    if v < -Pow2(width - 1) then Wrapped(-Pow2(width - 1), width)
    else if v >= Pow2(width - 1) then Wrapped(Pow2(width - 1) - 1, width)
    else Wrapped(v, width)
  }

  /** Quotient and remainder rounding toward zero. */
  function TDiv(a: int, b: int): int
    requires b != 0
  {
    if (a < 0) == (b < 0) then Abs(a) / Abs(b) else -(Abs(a) / Abs(b))
  }

  function TRem(a: int, b: int): int
    requires b != 0
  {
    if a < 0 then -(Abs(a) % Abs(b)) else Abs(a) % Abs(b)
  }

  /** Floor division by a power of two. */
  function Halved(v: int, n: nat): int
    decreases n
  {
    if n == 0 then v else Halved(v / 2, n - 1)
  }

  /** Shift amounts are read as unsigned patterns and limited to the width. */
  function Shl(a: APInt, amount: nat): APInt {
    if amount >= a.width then Wrapped(0, a.width) else Wrapped(a.bits * Pow2(amount), a.width)
  }

  function Ashr(a: APInt, amount: nat): APInt {
    if amount >= a.width then Wrapped(if Negative(a) then -1 else 0, a.width)
    else Wrapped(Halved(Signed(a), amount), a.width)
  }

  datatype Logic = And | Or | Xor

  function OnBits(op: Logic, p: bool, q: bool): bool {
    match op
    case And => p && q
    case Or => p || q
    case Xor => p != q
  }

  function BitOf(v: int, k: nat): bool
    decreases k
  {
    if k == 0 then v % 2 == 1 else BitOf(v / 2, k - 1)
  }

  function Bitwise(op: Logic, x: nat, y: nat, width: nat): (r: nat)
    ensures r < Pow2(width)
  {
    if width == 0 then 0
    else 2 * Bitwise(op, x / 2, y / 2, width - 1) + (if OnBits(op, x % 2 == 1, y % 2 == 1) then 1 else 0)
  }

  // ----- arithmetic of powers -----

  lemma {:induction false} Pow2Monotone(m: nat, n: nat)
    requires m <= n
    ensures Pow2(m) <= Pow2(n)
    decreases n
  {
    if m < n {
      Pow2Monotone(m, n - 1);
    }
  }

  lemma {:induction false} Pow2Add(m: nat, n: nat)
    ensures Pow2(m + n) == Pow2(m) * Pow2(n)
  {
    if m == 0 {
      assert Pow2(0 + n) == 1 * Pow2(n);
    } else {
      Pow2Add(m - 1, n);
      assert Pow2(m + n) == 2 * (Pow2(m - 1) * Pow2(n)) == (2 * Pow2(m - 1)) * Pow2(n);
    }
  }

  lemma {:induction false} Pow2Grows(n: nat)
    ensures Pow2(n) > n
  {
    if n > 0 {
      Pow2Grows(n - 1);
    }
  }

  // ----- widths keep values -----

  lemma SignedFits(a: APInt)
    ensures Fits(Signed(a), a.width)
  {
  }

  lemma WrappedFits(v: int, width: nat)
    requires width >= 1 && Fits(v, width)
    ensures Signed(Wrapped(v, width)) == v
  {
    ModOfSmall(v, Pow2(width));
  }

  lemma WrappedSigned(a: APInt)
    ensures Wrapped(Signed(a), a.width) == a
  {
    ModOfSmall(Signed(a), Pow2(a.width));
  }

  lemma SextKeeps(a: APInt, width: nat)
    requires width >= a.width
    ensures Signed(Sext(a, width)) == Signed(a)
  {
    Pow2Monotone(a.width, width);
    if width > a.width {
      Pow2Monotone(a.width, width - 1);
    }
  }

  lemma FitsMonotone(v: int, m: nat, n: nat)
    requires 1 <= m <= n && Fits(v, m)
    ensures Fits(v, n)
  {
    Pow2Monotone(m - 1, n - 1);
  }

  lemma DropTopKeeps(a: APInt)
    requires a.width >= 2
    ensures Fits(Signed(a), a.width - 1) <==> Negative(a) == Negative(DropTop(a))
    ensures Fits(Signed(a), a.width - 1) ==> Signed(DropTop(a)) == Signed(a)
  {
  }

  lemma {:induction false} TruncKeeps(a: APInt, width: nat)
    requires 1 <= width <= a.width && Fits(Signed(a), width)
    ensures Signed(Trunc(a, width)) == Signed(a)
    decreases a.width
  {
    if a.width > width {
      FitsMonotone(Signed(a), width, a.width - 1);
      DropTopKeeps(a);
      TruncKeeps(DropTop(a), width);
    }
  }

  lemma SextOrTruncKeeps(a: APInt, width: nat)
    requires width >= 1 && Fits(Signed(a), width)
    ensures Signed(SextOrTrunc(a, width)) == Signed(a)
  {
    if width >= a.width { SextKeeps(a, width); } else { TruncKeeps(a, width); }
  }

  /** The significant width is the smallest that holds the value. */
  lemma {:induction false} SignificantIsMinimal(a: APInt, width: nat)
    requires width >= 1
    ensures Fits(Signed(a), width) <==> SignificantBits(a) <= width
    decreases a.width
  {
    SignedFits(a);
    if width >= a.width {
      FitsMonotone(Signed(a), a.width, width);
    } else {
      DropTopKeeps(a);
      if Fits(Signed(a), a.width - 1) {
        SignificantIsMinimal(DropTop(a), width);
      } else if Fits(Signed(a), width) {
        FitsMonotone(Signed(a), width, a.width - 1);
      }
    }
  }

  // ----- truncated division -----

  lemma TRemBounds(a: int, b: int)
    requires b != 0
    ensures Abs(TRem(a, b)) < Abs(b) && Abs(TRem(a, b)) <= Abs(a)
    ensures a >= 0 ==> TRem(a, b) >= 0
    ensures a <= 0 ==> TRem(a, b) <= 0
  {
    ModAtMost(Abs(a), Abs(b));
  }

  lemma ModAtMost(m: int, n: int)
    requires m >= 0 && n > 0
    ensures m % n <= m
  {
    var q := m / n;
    assert m == n * q + m % n;
    MulNonNegative(n, q);
  }

  /** Quotient and remainder fit together. */
  lemma DivisionIdentity(a: int, b: int)
    requires b != 0
    ensures a == b * TDiv(a, b) + TRem(a, b)
  {
    var m: int, n: int := Abs(a), Abs(b);
    var q := m / n;
    assert m == n * q + m % n;
    MulNeg(n, q);
  }

  lemma TDivBounds(a: int, b: int)
    requires b != 0
    ensures Abs(TDiv(a, b)) <= Abs(a)
  {
    var m: int, n: int := Abs(a), Abs(b);
    var q := m / n;
    assert m == n * q + m % n;
    MulNonNegative(n, q);
  }

  // ----- shifts -----

  lemma FloorStep(v: int, h: int, p: int)
    requires h * p <= v / 2 < (h + 1) * p
    ensures h * (2 * p) <= v < (h + 1) * (2 * p)
  {
    assert h * (2 * p) == 2 * (h * p) && (h + 1) * (2 * p) == 2 * ((h + 1) * p);
  }

  lemma {:induction false} HalvedIsFloor(v: int, n: nat)
    ensures Halved(v, n) * Pow2(n) <= v < (Halved(v, n) + 1) * Pow2(n)
    decreases n
  {
    if n > 0 {
      HalvedIsFloor(v / 2, n - 1);
      FloorStep(v, Halved(v, n), Pow2(n - 1));
    }
  }

  lemma {:induction false} HalvedFits(v: int, n: nat, width: nat)
    requires width >= 1 && Fits(v, width)
    ensures Fits(Halved(v, n), width)
    decreases n
  {
    if n > 0 {
      HalvedFits(v / 2, n - 1, width);
    }
  }

  lemma ScaledFits(v: int, width: nat, n: nat)
    requires width >= 1 && Fits(v, width)
    ensures Fits(v * Pow2(n), width + n)
  {
    Pow2Add(width - 1, n);
    var p, q := Pow2(width - 1), Pow2(n);
    MulNeg(p, q);
    MulMonotone(-p, v, q);
    MulMonotone(v, p - 1, q);
    assert (p - 1) * q == p * q - q;
  }

  lemma ScaledPattern(bits: int, v: int, q: int, w: int)
    requires w > 0 && (bits == v || bits == v + w)
    ensures (bits * q) % w == (v * q) % w
  {
    if bits == v + w {
      assert bits * q == v * q + q * w;
      ModShift(v * q, q, w);
    }
  }

  /** Shifting the pattern left multiplies the value, as long as the product fits. */
  lemma ShlExact(a: APInt, amount: nat)
    requires amount < a.width && Fits(Signed(a) * Pow2(amount), a.width)
    ensures Signed(Shl(a, amount)) == Signed(a) * Pow2(amount)
  {
    ScaledPattern(a.bits, Signed(a), Pow2(amount), Pow2(a.width));
    WrappedFits(Signed(a) * Pow2(amount), a.width);
  }
}

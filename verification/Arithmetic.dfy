/** A few facts about products and remainders that the solver does not find alone. */
module Arithmetic {

  lemma MulSign(q: int, m: int)
    requires m > 0
    ensures q >= 1 ==> q * m >= m
    ensures q <= -1 ==> q * m <= -m
    ensures q <= -2 ==> q * m <= -2 * m
  {
    if q >= 1 {
      assert q * m == (q - 1) * m + m;
    } else if q <= -1 {
      assert q * m == (q + 1) * m - m;
      if q <= -2 {
        assert (q + 1) * m == (q + 2) * m - m;
      }
    }
  }

  lemma MulNeg(n: int, q: int)
    ensures n * -q == -(n * q) && -n * q == -(n * q) && -n * -q == n * q
  {
  }

  lemma MulMonotone(x: int, y: int, q: int)
    requires x <= y && q >= 0
    ensures x * q <= y * q
  {
  }

  lemma MulNonNegative(n: int, q: int)
    requires n >= 1 && q >= 0
    ensures n * q >= q
  {
    assert n * q == (n - 1) * q + q;
    assert (n - 1) * q >= 0;
  }

  lemma ModOfSmall(v: int, m: int)
    requires m > 0 && -m <= v < m
    ensures v % m == if v < 0 then v + m else v
  {
    var q, r := v / m, v % m;
    assert v == q * m + r;
    MulSign(q, m);
  }

  lemma ModShift(v: int, k: int, m: int)
    requires m > 0
    ensures (v + k * m) % m == v % m
  {
    var q, r := v / m, v % m;
    var q', r' := (v + k * m) / m, (v + k * m) % m;
    assert v == q * m + r && v + k * m == q' * m + r';
    var d := q' - q - k;
    assert d * m == q' * m - q * m - k * m;
    MulSign(d, m);
  }
}

/** The integer line rasteriser of tools/galaxigans-art.py:27-45. */
module LineRaster {
  import opened Common

  datatype Segment = Segment(x0: int, y0: int, x1: int, y1: int) {
    /** `dx`; the source keeps the vertical distance negated in `dy`. */
    function Across(): int { Abs(x1 - x0) }

    function Down(): int { Abs(y1 - y0) }

    function Sx(): int { if x0 < x1 then 1 else -1 }

    function Sy(): int { if y0 < y1 then 1 else -1 }

    /** Steps from the first to the last pixel. */
    function Steps(): (n: int)
      ensures n >= 0
    {
      Max(Across(), Down())
    }
  }

  /** The loop's variables. */
  datatype Pen = Pen(x: int, y: int, err: int)

  function Start(s: Segment): Pen {
    Pen(s.x0, s.y0, s.Across() - s.Down())
  }

  /** One pass through the body of the loop, after the test for the endpoint. */
  function Advance(s: Segment, p: Pen): Pen {
    var dx, dy, e2 := s.Across(), -s.Down(), 2 * p.err;
    var q := if e2 >= dy then Pen(p.x + s.Sx(), p.y, p.err + dy) else p;
    if e2 <= dx then Pen(q.x, q.y + s.Sy(), q.err + dx) else q
  }

  function PenAt(s: Segment, n: nat): Pen {
    if n == 0 then Start(s) else Advance(s, PenAt(s, n - 1))
  }

  /** The pen after a steps across and b down; `err` is the distance in units of the two lengths. */
  ghost predicate Traced(s: Segment, p: Pen, a: int, b: int) {
    && p.x == s.x0 + s.Sx() * a && p.y == s.y0 + s.Sy() * b
    && p.err == Scaled(s.Across(), b + 1) - Scaled(s.Down(), a + 1)
  }

  function Scaled(length: int, n: int): int {
    length * n
  }

  lemma ScaledStep(length: int, n: int)
    ensures Scaled(length, n + 1) == Scaled(length, n) + length
  {
  }

  /** Twice the deviation from the ideal line, times the longer side, in the shorter direction. */
  ghost function Deviation(s: Segment, a: int, b: int): int {
    2 * (Scaled(s.Across(), b) - Scaled(s.Down(), a))
  }

  /** Half a pixel either way, with the tie between two pixels decided: onward for the shorter side. */
  ghost predicate HalfOpen(s: Segment, deviation: int) {
    if s.Across() >= s.Down() then deviation == 0 || -s.Steps() < deviation <= s.Steps()
    else -s.Steps() <= deviation < s.Steps()
  }

  /** Where n steps lead: n pixels along the longer side, within half a pixel on the other. */
  ghost predicate OnTrack(s: Segment, n: nat, a: int, b: int) {
    && (if s.Across() >= s.Down() then a == n else b == n)
    && HalfOpen(s, Deviation(s, a, b))
  }

  lemma AdvanceOnTrack(s: Segment, p: Pen, n: nat, a: int, b: int) returns (a': int, b': int)
    requires n < s.Steps() && Traced(s, p, a, b) && OnTrack(s, n, a, b)
    ensures Traced(s, Advance(s, p), a', b') && OnTrack(s, n + 1, a', b')
    ensures a <= a' <= a + 1 && b <= b' <= b + 1
  {
    var dx, dy, e2 := s.Across(), -s.Down(), 2 * p.err;
    a', b' := a + (if e2 >= dy then 1 else 0), b + (if e2 <= dx then 1 else 0);
    ScaledStep(s.Across(), b);
    ScaledStep(s.Across(), b + 1);
    ScaledStep(s.Down(), a);
    ScaledStep(s.Down(), a + 1);
  }

  lemma {:induction false} PenOnTrack(s: Segment, n: nat) returns (a: int, b: int)
    requires n <= s.Steps()
    ensures Traced(s, PenAt(s, n), a, b) && OnTrack(s, n, a, b)
    ensures 0 <= a <= n && 0 <= b <= n
  {
    if n == 0 {
      a, b := 0, 0;
    } else {
      var a0, b0 := PenOnTrack(s, n - 1);
      a, b := AdvanceOnTrack(s, PenAt(s, n - 1), n - 1, a0, b0);
    }
  }

  predicate AtEnd(s: Segment, p: Pen) {
    p.x == s.x1 && p.y == s.y1
  }

  lemma NearestMultiple(longer: int, m: int, k: int)
    requires longer > 0 && -longer <= 2 * (Scaled(longer, m) - Scaled(longer, k)) <= longer
    ensures m == k
  {
    if m > k {
      MulGap(longer, m - k);
    } else if m < k {
      MulGap(longer, k - m);
    }
    assert Scaled(longer, m) - Scaled(longer, k) == longer * (m - k);
    assert longer * (k - m) == -(longer * (m - k));
  }

  lemma MulGap(longer: int, d: int)
    requires longer > 0 && d >= 1
    ensures longer * d >= longer
  {
    assert longer * d == longer * (d - 1) + longer;
    assert longer * (d - 1) >= 0;
  }

  lemma Swapped(a: int, b: int)
    ensures Scaled(a, b) == Scaled(b, a)
  {
  }

  /** After all its steps the pen has gone the whole way on both sides. */
  lemma WholeWay(s: Segment, a: int, b: int)
    requires s.Steps() > 0 && OnTrack(s, s.Steps(), a, b)
    ensures a == s.Across() && b == s.Down()
  {
    Swapped(s.Across(), s.Down());
    if s.Across() >= s.Down() {
      NearestMultiple(s.Across(), b, s.Down());
    } else {
      NearestMultiple(s.Down(), s.Across(), a);
    }
  }

  /** Where the pen stands on one axis shows how many steps it took there. */
  lemma AxisTarget(from: int, to: int, n: int)
    requires n >= 0
    ensures from + (if from < to then 1 else -1) * n == to <==> n == Abs(to - from)
  {
  }

  /** The loop meets its endpoint test after exactly `Steps()` steps, for all endpoints. */
  lemma EndsExactly(s: Segment, n: nat)
    requires n <= s.Steps()
    ensures AtEnd(s, PenAt(s, n)) <==> n == s.Steps()
  {
    var a, b := PenOnTrack(s, n);
    AxisTarget(s.x0, s.x1, a);
    AxisTarget(s.y0, s.y1, b);
    if n == s.Steps() && n > 0 {
      WholeWay(s, a, b);
    }
  }

  /** Consecutive pixels touch: one pixel along the longer side, at most one along the other. */
  lemma StepsTouch(s: Segment, n: nat)
    requires n < s.Steps()
    ensures var p, q := PenAt(s, n), PenAt(s, n + 1);
            && Abs(q.x - p.x) <= 1 && Abs(q.y - p.y) <= 1
            && (if s.Across() >= s.Down() then q.x - p.x == s.Sx() else q.y - p.y == s.Sy())
  {
    var a, b := PenOnTrack(s, n);
    var a', b' := AdvanceOnTrack(s, PenAt(s, n), n, a, b);
  }

  /**
   Every plotted pixel is within half a pixel of the ideal line, measured along the shorter side:
   twice the cross product of the pixel's offset with the direction is at most the longer side.
   */
  lemma HalfPixel(s: Segment, n: nat)
    requires n <= s.Steps()
    ensures var p := PenAt(s, n);
            Abs(2 * ((p.y - s.y0) * (s.x1 - s.x0) - (p.x - s.x0) * (s.y1 - s.y0))) <= s.Steps()
  {
    var p := PenAt(s, n);
    var a, b := PenOnTrack(s, n);
    CrossProduct(s, a, b, p.x - s.x0, p.y - s.y0);
  }

  lemma CrossProduct(s: Segment, a: int, b: int, u: int, v: int)
    requires u == s.Sx() * a && v == s.Sy() * b
    ensures Abs(2 * (v * (s.x1 - s.x0) - u * (s.y1 - s.y0))) == Abs(Deviation(s, a, b))
  {
    var across, down := s.Across(), s.Down();
    assert s.x1 - s.x0 == s.Sx() * across && s.y1 - s.y0 == s.Sy() * down;
    Signs(s.Sx(), s.Sy(), across, down, a, b);
  }

  lemma Signs(sx: int, sy: int, across: int, down: int, a: int, b: int)
    requires (sx == 1 || sx == -1) && (sy == 1 || sy == -1)
    ensures (sy * b) * (sx * across) - (sx * a) * (sy * down) == (sx * sy) * (Scaled(across, b) - Scaled(down, a))
    ensures sx * sy == 1 || sx * sy == -1
  {
    assert (sy * b) * (sx * across) == (sx * sy) * (across * b);
    assert (sx * a) * (sy * down) == (sx * sy) * (down * a);
  }

  // ----- the exact pixels -----

  /** The ideal offset on the shorter side after n pixels on the longer, rounded, halves up. */
  function Rounded(longer: nat, shorter: nat, n: nat): int {
    if longer == 0 then 0 else (2 * shorter * n + longer) / (2 * longer)
  }

  /** The n-th pixel of the line. */
  function Pixel(s: Segment, n: nat): (int, int) {
    var dx, dy := Abs(s.x1 - s.x0), Abs(s.y1 - s.y0);
    var across, down := if dx >= dy then n else Rounded(dy, dx, n), if dx >= dy then Rounded(dx, dy, n) else n;
    (if s.x0 < s.x1 then s.x0 + across else s.x0 - across, if s.y0 < s.y1 then s.y0 + down else s.y0 - down)
  }

  lemma RoundedFrom(longer: int, shorter: int, n: nat, m: int)
    requires longer > 0 && shorter >= 0
    requires -longer < 2 * (Scaled(longer, m) - Scaled(shorter, n)) <= longer
    ensures m == Rounded(longer, shorter, n)
  {
    var t, d := 2 * shorter * n + longer, 2 * longer;
    assert 2 * shorter * n == 2 * Scaled(shorter, n);
    assert m * d == 2 * Scaled(longer, m);
    FloorIs(t, d, m);
  }

  lemma FloorIs(t: int, d: int, m: int)
    requires d > 0 && m * d <= t < m * d + d
    ensures t / d == m
  {
    var q := t / d;
    assert t == q * d + t % d;
    if q > m {
      MulGap(d, q - m);
    } else if q < m {
      MulGap(d, m - q);
    }
    assert d * (q - m) == q * d - m * d && d * (m - q) == m * d - q * d;
  }

  lemma NoWay(s: Segment)
    requires s.Steps() == 0
    ensures Pixel(s, 0) == (s.x0, s.y0)
  {
  }

  lemma SideIs(from: int, to: int, n: int)
    ensures from + (if from < to then 1 else -1) * n == if from < to then from + n else from - n
  {
  }

  /** The pen's position after n steps is the n-th pixel, ties included. */
  lemma PixelExactly(s: Segment, n: nat)
    requires n <= s.Steps()
    ensures (PenAt(s, n).x, PenAt(s, n).y) == Pixel(s, n)
  {
    if s.Steps() == 0 {
      NoWay(s);
    } else {
      var a, b := PenOnTrack(s, n);
      SideIs(s.x0, s.x1, a);
      SideIs(s.y0, s.y1, b);
      if s.Across() >= s.Down() {
        RoundedFrom(s.Across(), s.Down(), n, b);
      } else {
        RoundedFrom(s.Down(), s.Across(), n, a);
      }
    }
  }

  // ----- the loop on a grid -----

  /** The n-th pixel falls on this cell, the frame's origin added. */
  predicate Marks(s: Segment, origin: int, k: nat, row: int, col: int) {
    Pixel(s, k) == (col - origin, row)
  }

  ghost predicate Covered(s: Segment, origin: int, n: int, row: int, col: int) {
    exists k: nat :: k < n && Marks(s, origin, k, row, col)
  }

  lemma CoveredStep(s: Segment, origin: int, n: nat, row: int, col: int)
    ensures Covered(s, origin, n + 1, row, col) <==> Covered(s, origin, n, row, col) || Marks(s, origin, n, row, col)
  {
  }

  /** `pset`: the frame offset, then a clipped write. */
  method Pset(g: array2<int>, origin: int, x: int, y: int, c: int)
    modifies g
    ensures forall r, q | 0 <= r < g.Length0 && 0 <= q < g.Length1 ::
              g[r, q] == if r == y && q == x + origin then c else old(g[r, q])
  {
    var x := x + origin;
    if 0 <= x < g.Length1 && 0 <= y < g.Length0 {
      g[y, x] := c;
    }
  }

  /**
   `line`: the grid's rows are its first index.  Exactly the cells of the pixels 0 to max(dx, dy) get the
   colour, and the number of `pset` calls is reported.
   */
  method Line(g: array2<int>, origin: int, s: Segment, c: int) returns (plotted: nat)
    modifies g
    ensures plotted == Max(Abs(s.x1 - s.x0), Abs(s.y1 - s.y0)) + 1
    ensures forall r, q | 0 <= r < g.Length0 && 0 <= q < g.Length1 ::
              g[r, q] == if Covered(s, origin, plotted, r, q) then c else old(g[r, q])
  {
    var dx, dy := s.Across(), -s.Down();
    var x0, y0, err := s.x0, s.y0, dx + dy;
    plotted := 0;
    while true
      invariant plotted <= s.Steps() && Pen(x0, y0, err) == PenAt(s, plotted)
      invariant forall r, q | 0 <= r < g.Length0 && 0 <= q < g.Length1 ::
                  g[r, q] == if Covered(s, origin, plotted, r, q) then c else old(g[r, q])
      decreases s.Steps() - plotted
    {
      EndsExactly(s, plotted);
      PixelExactly(s, plotted);
      Pset(g, origin, x0, y0, c);
      forall r, q ensures Covered(s, origin, plotted + 1, r, q)
                     <==> Covered(s, origin, plotted, r, q) || (r == y0 && q == x0 + origin) {
        CoveredStep(s, origin, plotted, r, q);
      }
      plotted := plotted + 1;
      if x0 == s.x1 && y0 == s.y1 {
        break;
      }
      var e2 := 2 * err;
      if e2 >= dy {
        err, x0 := err + dy, x0 + s.Sx();
      }
      if e2 <= dx {
        err, y0 := err + dx, y0 + s.Sy();
      }
    }
  }
}

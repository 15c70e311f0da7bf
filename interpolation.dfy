/** The interpolator of cobi/interpolate/interpolate.go: it fills a w-by-h
    grid (indexed [x, y], column first, like the Go slices) from four corner
    samples by writing the corners, interpolating the first and the last row,
    and then interpolating every column between its two finished row values.

    The specification functions below describe the grid after each of these
    phases; the methods are proved to produce exactly that grid. */
module Interpolation {
  import opened Basics
  import Util

  /** Go computes `byte(float32(lo) + float32(i) * float32(hi - lo) / float32(n - 1))`
      with a byte difference. This is the exact value of that expression,
      truncated; a result above 255 (only possible when the byte difference
      wrapped) is reduced modulo 256. */
  function Step(lo: Byte, hi: Byte, i: nat, n: int): Byte
    requires n >= 2
  {
    (lo + i * WrapSub(hi, lo) / (n - 1)) % 256
  }

  /** The grid right after the four corner writes (zero elsewhere): the
      corners are written in the order v[0], v[1], v[2], v[3], so where two
      corners coincide (w = 1 or h = 1) the later write wins. */
  function Placed(w: int, h: int, v: Quad, x: int, y: int): Byte
  {
    if x == w - 1 && y == h - 1 then v[3]
    else if x == 0 && y == h - 1 then v[2]
    else if x == w - 1 && y == 0 then v[1]
    else if x == 0 && y == 0 then v[0]
    else 0
  }

  /** The grid after the first and the last row have been interpolated
      between their end cells; only the inner cells 1..w-2 of those rows change. */
  function RowPhase(w: int, h: int, v: Quad, x: int, y: int): Byte
  {
    if (y == 0 || y == h - 1) && 1 <= x <= w - 2 then
      Step(Placed(w, h, v, 0, y), Placed(w, h, v, w - 1, y), x, w)
    else
      Placed(w, h, v, x, y)
  }

  /** The finished grid: every column interpolated between its finished
      first-row and last-row values; only the inner cells 1..h-2 change. */
  function Cell(w: int, h: int, v: Quad, x: int, y: int): Byte
  {
    if 1 <= y <= h - 2 then
      Step(RowPhase(w, h, v, x, 0), RowPhase(w, h, v, x, h - 1), y, h)
    else
      RowPhase(w, h, v, x, y)
  }

  /** Interpolate(w, h, v): a fresh w-by-h grid holding Cell everywhere. */
  method Interpolate(w: int, h: int, v: Quad) returns (r: array2<Byte>)
    requires w >= 1 && h >= 1
    ensures fresh(r) && r.Length0 == w && r.Length1 == h
    ensures forall x, y :: 0 <= x < w && 0 <= y < h ==> r[x, y] == Cell(w, h, v, x, y)
  {
    r := new Byte[w, h]((_, _) => 0);
    r[0, 0] := v[0];
    r[w - 1, 0] := v[1];
    r[0, h - 1] := v[2];
    r[w - 1, h - 1] := v[3];
    assert forall x, y :: 0 <= x < w && 0 <= y < h ==> r[x, y] == Placed(w, h, v, x, y);

    InterpolateRow(r, 0);
    InterpolateRow(r, h - 1);
    assert forall x, y :: 0 <= x < w && 0 <= y < h ==> r[x, y] == RowPhase(w, h, v, x, y);

    var x := 0;
    while x < w
      invariant 0 <= x <= w
      invariant forall i, j :: 0 <= i < w && 0 <= j < h ==>
        r[i, j] == if i < x then Cell(w, h, v, i, j) else RowPhase(w, h, v, i, j)
    {
      InterpolateColumn(r, x);
      x := x + 1;
    }
  }

  /** interpolateRow(v, y): the inner cells of row y get the interpolation
      between the row's two end cells; nothing else changes. */
  method InterpolateRow(v: array2<Byte>, y: int)
    requires 1 <= v.Length0 && 0 <= y < v.Length1
    modifies v
    ensures forall i, j :: 0 <= i < v.Length0 && 0 <= j < v.Length1 ==>
      v[i, j] == if j == y && 1 <= i <= v.Length0 - 2
                 then Step(old(v[0, y]), old(v[v.Length0 - 1, y]), i, v.Length0)
                 else old(v[i, j])
  {
    var w := v.Length0;
    var minXValue := v[0, y];
    var maxXValue := v[w - 1, y];
    var x := 1;
    while x < w - 1
      invariant 1 <= x <= if w >= 2 then w - 1 else 1
      invariant forall i, j :: 0 <= i < w && 0 <= j < v.Length1 ==>
        v[i, j] == if j == y && 1 <= i < x then Step(minXValue, maxXValue, i, w) else old(v[i, j])
    {
      v[x, y] := Step(minXValue, maxXValue, x, w);
      x := x + 1;
    }
  }

  /** interpolateColumn(v, x): the inner cells of column x get the
      interpolation between the column's two end cells; nothing else changes. */
  method InterpolateColumn(v: array2<Byte>, x: int)
    requires 0 <= x < v.Length0 && 1 <= v.Length1
    modifies v
    ensures forall i, j :: 0 <= i < v.Length0 && 0 <= j < v.Length1 ==>
      v[i, j] == if i == x && 1 <= j <= v.Length1 - 2
                 then Step(old(v[x, 0]), old(v[x, v.Length1 - 1]), j, v.Length1)
                 else old(v[i, j])
  {
    var h := v.Length1;
    var minYValue := v[x, 0];
    var maxYValue := v[x, h - 1];
    var y := 1;
    while y < h - 1
      invariant 1 <= y <= if h >= 2 then h - 1 else 1
      invariant forall i, j :: 0 <= i < v.Length0 && 0 <= j < h ==>
        v[i, j] == if i == x && 1 <= j < y then Step(minYValue, maxYValue, j, h) else old(v[i, j])
    {
      v[x, y] := Step(minYValue, maxYValue, y, h);
      y := y + 1;
    }
  }

  // ---------------------------------------------------------------------
  // Properties of the interpolated grid

  /** With at least two columns and two rows every corner keeps its own sample. */
  lemma CornersExact(w: int, h: int, v: Quad)
    requires w >= 2 && h >= 2
    ensures Cell(w, h, v, 0, 0) == v[0]
    ensures Cell(w, h, v, w - 1, 0) == v[1]
    ensures Cell(w, h, v, 0, h - 1) == v[2]
    ensures Cell(w, h, v, w - 1, h - 1) == v[3]
  {
  }

  /** Where corners coincide the later corner write wins: a 1x1 grid is v[3],
      a single column runs from v[1] to v[3], a single row from v[2] to v[3]. */
  lemma DegenerateCorners(w: int, h: int, v: Quad)
    requires w >= 1 && h >= 1
    ensures w == 1 && h == 1 ==> Cell(w, h, v, 0, 0) == v[3]
    ensures w == 1 && h >= 2 ==> Cell(w, h, v, 0, 0) == v[1] && Cell(w, h, v, 0, h - 1) == v[3]
    ensures w >= 2 && h == 1 ==> Cell(w, h, v, 0, 0) == v[2] && Cell(w, h, v, w - 1, 0) == v[3]
  {
  }

  /** Corner samples that agree wherever corners coincide (as samples taken
      from one raster always do) are all reproduced exactly, whatever the size. */
  predicate ConsistentCorners(w: int, h: int, v: Quad)
  {
    (w == 1 ==> v[0] == v[1] && v[2] == v[3]) &&
    (h == 1 ==> v[0] == v[2] && v[1] == v[3])
  }

  lemma CornersReproduced(w: int, h: int, v: Quad)
    requires w >= 1 && h >= 1 && ConsistentCorners(w, h, v)
    ensures Cell(w, h, v, 0, 0) == v[0]
    ensures Cell(w, h, v, w - 1, 0) == v[1]
    ensures Cell(w, h, v, 0, h - 1) == v[2]
    ensures Cell(w, h, v, w - 1, h - 1) == v[3]
  {
  }

  /** Equal end points give a zero step: every interpolated cell is the end point. */
  lemma StepOfEqualEnds(lo: Byte, i: nat, n: int)
    requires n >= 2
    ensures Step(lo, lo, i, n) == lo
  {
  }

  lemma DivMonotone(a: int, b: int, m: int)
    requires 0 <= a <= b && m > 0
    ensures a / m <= b / m
  {
    if a / m > b / m {
      assert m * (a / m) + a % m == a;
      assert m * (b / m) + b % m == b;
      assert m * (a / m) >= m * (b / m + 1) by {
        MulMonotone(b / m + 1, a / m, m);
      }
    }
  }

  lemma MulMonotone(i: int, j: int, d: int)
    requires 0 <= i <= j && d >= 0
    ensures i * d <= j * d
  {
  }

  /** An integer at most m * d, divided by m, is at most d. */
  lemma DivBound(a: int, d: int, m: int)
    requires 0 <= a <= m * d && m > 0 && d >= 0
    ensures a / m <= d
  {
  }

  /** With lo <= hi the byte difference does not wrap and the step at i is
      lo plus a truncated share of hi - lo, never beyond hi. */
  lemma StepNoWrap(lo: Byte, hi: Byte, i: nat, n: int)
    requires n >= 2 && lo <= hi && i <= n - 1
    ensures 0 <= i * (hi - lo) / (n - 1) <= hi - lo
    ensures Step(lo, hi, i, n) == lo + i * (hi - lo) / (n - 1)
  {
    var d := hi - lo;
    assert WrapSub(hi, lo) == d;
    MulMonotone(i, n - 1, d);
    MulMonotone(0, i, d);
    assert (n - 1) * d == d * (n - 1);
    DivBound(i * d, d, n - 1);
  }

  /** For a non-decreasing pair of end points (no byte wrap) the steps stay
      within [lo, hi] and never decrease. */
  lemma StepMonotone(lo: Byte, hi: Byte, i: nat, j: nat, n: int)
    requires n >= 2 && lo <= hi && i <= j <= n - 1
    ensures lo <= Step(lo, hi, i, n) <= Step(lo, hi, j, n) <= hi
  {
    StepNoWrap(lo, hi, i, n);
    StepNoWrap(lo, hi, j, n);
    ShareMonotone(i, j, hi - lo, n - 1);
  }

  /** A truncated share i * d / m grows with i. */
  lemma ShareMonotone(i: int, j: int, d: int, m: int)
    requires 0 <= i <= j && d >= 0 && m > 0
    ensures i * d / m <= j * d / m
  {
    MulMonotone(i, j, d);
    DivMonotone(i * d, j * d, m);
  }

  /** A flat area (four equal corners) interpolates to that value everywhere. */
  lemma FlatArea(w: int, h: int, v: Quad, x: int, y: int)
    requires w >= 1 && h >= 1 && 0 <= x < w && 0 <= y < h
    requires v[0] == v[1] == v[2] == v[3]
    ensures Cell(w, h, v, x, y) == v[0]
  {
    var c := v[0];
    assert Placed(w, h, v, 0, 0) == c && Placed(w, h, v, w - 1, 0) == c;
    assert Placed(w, h, v, 0, h - 1) == c && Placed(w, h, v, w - 1, h - 1) == c;
    assert RowPhase(w, h, v, x, 0) == c by {
      if 1 <= x <= w - 2 { StepOfEqualEnds(c, x, w); }
    }
    assert RowPhase(w, h, v, x, h - 1) == c by {
      if 1 <= x <= w - 2 { StepOfEqualEnds(c, x, w); }
    }
    if 1 <= y <= h - 2 {
      StepOfEqualEnds(c, y, h);
    }
  }

  /** The first and the last row are non-decreasing and bounded by their end
      cells when the right end is not below the left end. */
  lemma RowMonotone(w: int, h: int, v: Quad, y: int, x1: int, x2: int)
    requires w >= 1 && h >= 1 && (y == 0 || y == h - 1)
    requires Placed(w, h, v, 0, y) <= Placed(w, h, v, w - 1, y)
    requires 0 <= x1 <= x2 < w
    ensures Placed(w, h, v, 0, y) <= RowPhase(w, h, v, x1, y)
    ensures RowPhase(w, h, v, x1, y) <= RowPhase(w, h, v, x2, y)
    ensures RowPhase(w, h, v, x2, y) <= Placed(w, h, v, w - 1, y)
  {
    var lo, hi := Placed(w, h, v, 0, y), Placed(w, h, v, w - 1, y);
    if w >= 3 {
      StepMonotone(lo, hi, x1, x2, w);
      StepMonotone(lo, hi, x2, w - 1, w);
      StepMonotone(lo, hi, 0, x1, w);
    }
  }

  /** Every column is non-decreasing and bounded by its two finished end
      cells when the bottom end is not below the top end. */
  lemma ColumnMonotone(w: int, h: int, v: Quad, x: int, y1: int, y2: int)
    requires w >= 1 && h >= 1 && 0 <= x < w
    requires RowPhase(w, h, v, x, 0) <= RowPhase(w, h, v, x, h - 1)
    requires 0 <= y1 <= y2 < h
    ensures RowPhase(w, h, v, x, 0) <= Cell(w, h, v, x, y1)
    ensures Cell(w, h, v, x, y1) <= Cell(w, h, v, x, y2)
    ensures Cell(w, h, v, x, y2) <= RowPhase(w, h, v, x, h - 1)
  {
    var lo, hi := RowPhase(w, h, v, x, 0), RowPhase(w, h, v, x, h - 1);
    if h >= 3 {
      StepMonotone(lo, hi, y1, y2, h);
      StepMonotone(lo, hi, y2, h - 1, h);
      StepMonotone(lo, hi, 0, y1, h);
    }
  }
}

/** The coverage grid both ChannelEncoder versions keep (cobi/encoding/encoder.go
    and cobi/encoding/encoding.go): a width-by-height array of booleans,
    indexed [x, y], marking the pixels some emitted area already covers, and
    the row-major scan that finds the frontier, the first uncovered pixel. */
module Coverage {
  import opened Basics

  predicate InRect(x: int, y: int, x0: int, y0: int, w: int, h: int)
  {
    x0 <= x < x0 + w && y0 <= y < y0 + h
  }

  /** Every pixel before (fx, fy) in row-major order is covered. */
  ghost predicate CoveredBefore(c: array2<bool>, fx: int, fy: int)
    reads c
  {
    forall x, y :: 0 <= x < c.Length0 && 0 <= y < c.Length1 && Before(x, y, fx, fy) ==> c[x, y]
  }

  /** Every pixel is covered. */
  ghost predicate Full(c: array2<bool>)
    reads c
  {
    forall x, y :: 0 <= x < c.Length0 && 0 <= y < c.Length1 ==> c[x, y]
  }

  /** Below `row`, a covered pixel has a covered pixel right above it: the
      covered part of the rows from `row` on is closed upwards. This holds
      when every area starts at or above `row`, as the greedy encoder's do. */
  ghost predicate Staircase(c: array2<bool>, row: int)
    reads c
  {
    forall x, y :: 0 <= x < c.Length0 && row < y && 0 < y < c.Length1 && c[x, y] ==> c[x, y - 1]
  }

  /** The loops of addToCoverageMap: rows y0..y0+h-1, and in each the
      columns x0..x0+w-1, become covered; nothing else changes. */
  method Mark(c: array2<bool>, x0: int, y0: int, w: int, h: int)
    requires w <= 0 || h <= 0 || (0 <= x0 && x0 + w <= c.Length0 && 0 <= y0 && y0 + h <= c.Length1)
    modifies c
    ensures forall x, y :: 0 <= x < c.Length0 && 0 <= y < c.Length1 ==>
      c[x, y] == (old(c[x, y]) || InRect(x, y, x0, y0, w, h))
  {
    var y := y0;
    while y < y0 + h
      invariant y == y0 || y0 <= y <= y0 + h
      invariant forall px, py :: 0 <= px < c.Length0 && 0 <= py < c.Length1 ==>
        c[px, py] == (old(c[px, py]) || InRect(px, py, x0, y0, w, y - y0))
    {
      var x := x0;
      while x < x0 + w
        invariant x == x0 || x0 <= x <= x0 + w
        invariant forall px, py :: 0 <= px < c.Length0 && 0 <= py < c.Length1 ==>
          c[px, py] == (old(c[px, py]) || InRect(px, py, x0, y0, w, y - y0) || (py == y && x0 <= px < x))
      {
        c[x, y] := true;
        x := x + 1;
      }
      y := y + 1;
    }
  }

  /** The loops of findMinUncoveredPixel: the first uncovered pixel in
      row-major order among the rows from `row` on, or (-1, -1) if there is none. */
  method ScanFrom(c: array2<bool>, row: int) returns (x: int, y: int)
    requires 0 <= row
    ensures x == -1 && y == -1 ==>
      forall px, py :: 0 <= px < c.Length0 && row <= py < c.Length1 ==> c[px, py]
    ensures !(x == -1 && y == -1) ==>
      0 <= x < c.Length0 && row <= y < c.Length1 && !c[x, y] &&
      forall px, py :: 0 <= px < c.Length0 && row <= py < c.Length1 && Before(px, py, x, y) ==> c[px, py]
  {
    y := row;
    while y < c.Length1
      invariant row <= y && (y <= c.Length1 || y == row)
      invariant forall px, py :: 0 <= px < c.Length0 && row <= py < y && py < c.Length1 ==> c[px, py]
    {
      x := 0;
      while x < c.Length0
        invariant 0 <= x <= c.Length0
        invariant forall px :: 0 <= px < x ==> c[px, y]
      {
        if !c[x, y] {
          return;
        }
        x := x + 1;
      }
      y := y + 1;
    }
    return -1, -1;
  }

  /** Under the staircase, a pixel uncovered in row `row` is uncovered in
      every row below it. */
  lemma {:induction false} ColumnStaysFree(c: array2<bool>, row: int, x: int, y: int)
    requires Staircase(c, row)
    requires 0 <= x < c.Length0 && 0 <= row <= y < c.Length1
    requires !c[x, row]
    ensures !c[x, y]
  {
    if y > row {
      ColumnStaysFree(c, row, x, y - 1);
    }
  }
}

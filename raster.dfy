/** Row-major search for the first pixel of a width-by-height raster that a
    coverage test rejects. The decoder of cobi/decoding/decoder.go relies on
    such a search over its list of areas (its callee
    `encoding.FindMinUncoveredPixel(areas, width, height)` is not part of this
    model, so this is that search as its name and doc comment describe it);
    it is also the corrected form of the stub getMinUncoveredPixel of
    cobi/encoding.go. */
module Raster {
  import opened Basics

  /** Every pixel of the width-by-height raster passes `covered`. */
  ghost predicate AllCovered(covered: (int, int) -> bool, width: int, height: int)
  {
    forall px, py :: 0 <= px < width && 0 <= py < height ==> covered(px, py)
  }

  /** (x, y) is the row-major first pixel of the raster that fails `covered`. */
  ghost predicate IsFirstUncovered(covered: (int, int) -> bool, width: int, height: int, x: int, y: int)
  {
    0 <= x < width && 0 <= y < height && !covered(x, y) &&
    forall px, py :: 0 <= px < width && 0 <= py < height && Before(px, py, x, y) ==> covered(px, py)
  }

  /** Returns the first uncovered pixel in row-major order, or (-1, -1) when
      every pixel is covered. */
  method FirstUncovered(covered: (int, int) -> bool, width: int, height: int) returns (x: int, y: int)
    ensures (x == -1 && y == -1) <==> AllCovered(covered, width, height)
    ensures !(x == -1 && y == -1) ==> IsFirstUncovered(covered, width, height, x, y)
  {
    var row := 0;
    while row < height
      invariant 0 <= row && (row <= height || row == 0)
      invariant forall px, py :: 0 <= px < width && 0 <= py < row && py < height ==> covered(px, py)
    {
      var col := 0;
      while col < width
        invariant 0 <= col && (col <= width || col == 0)
        invariant forall px :: 0 <= px < col && px < width ==> covered(px, row)
      {
        if !covered(col, row) {
          return col, row;
        }
        col := col + 1;
      }
      row := row + 1;
    }
    return -1, -1;
  }
}

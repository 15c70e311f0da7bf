/** The greedy encoder of cobi/encoding/encoder.go. Per colour channel a
    ChannelEncoder keeps a coverage grid and a frontier (the first uncovered
    pixel in row-major order); it repeatedly places at the frontier the
    largest rectangle, found by growing candidate shapes diagonal by
    diagonal, whose interpolation the quality score accepts, and records its
    position, size and four corner samples. The quality score itself is
    the parameter `acceptable` (x1, y1, x2, y2) of the encoder.

    The areas of one channel come out in row-major order of their origins,
    pairwise disjoint, inside the image and together covering every pixel. */
module Encoder {
  import opened Basics
  import opened Coverage
  import Canvas

  /** EncodedArea: origin (X, Y), size W by H (each at most 255) and the
      samples at the upper-left, upper-right, bottom-left and bottom-right pixel. */
  datatype Area = Area(X: int, Y: int, W: Byte, H: Byte, Values: Quad)
  {
    /** Contains: the half-open box [X, X+W) x [Y, Y+H). */
    predicate Contains(x: int, y: int)
    {
      X <= x && x <= X + W - 1 && Y <= y && y <= Y + H - 1
    }

    /** GetInterpolatedArea hands these four values to the interpolator. */
    function AsPatch(): (p: Canvas.Patch)
      ensures p.w == W && p.h == H && p.corners == Values
      ensures forall x, y :: Canvas.Covers(p, x, y) <==> Contains(x, y)
    {
      Canvas.Patch(X, Y, W, H, Values)
    }
  }

  /** The Contains test of encoding_test.go: the 4 by 2 area at (3, 2)
      holds exactly columns 3 .. 6 of rows 2 and 3 of the probed window. */
  lemma ContainsTest()
    ensures forall x, y :: 2 <= x <= 7 && 1 <= y <= 4 ==>
      (Area(3, 2, 4, 2, [0, 0, 0, 0]).Contains(x, y) <==> 3 <= x <= 6 && 2 <= y <= 3)
  {
  }

  /** The quality test "calculateInterpolationQuality(x1, y1, x2, y2) < 0.005"
      on the encoder's channel, taken as given. */
  type Acceptance = (int, int, int, int) -> bool

  // ---------------------------------------------------------------------
  // Tilings of a channel

  /** A non-empty area lying inside the width-by-height image. */
  predicate Inside(a: Area, width: int, height: int)
  {
    1 <= a.W && 1 <= a.H && 0 <= a.X && a.X + a.W <= width && 0 <= a.Y && a.Y + a.H <= height
  }

  /** The area lies inside the image and its values are the channel's
      samples at its four corners. */
  predicate SampledCorners(a: Area, values: seq<seq<Byte>>, width: int, height: int)
    requires IsChannel(values, width, height)
  {
    Inside(a, width, height) &&
    a.Values == [values[a.X][a.Y], values[a.X + a.W - 1][a.Y],
                 values[a.X][a.Y + a.H - 1], values[a.X + a.W - 1][a.Y + a.H - 1]]
  }

  ghost predicate Covered(areas: seq<Area>, x: int, y: int)
  {
    exists i :: 0 <= i < |areas| && areas[i].Contains(x, y)
  }

  ghost predicate PairwiseDisjoint(areas: seq<Area>)
  {
    forall i, j, x, y :: 0 <= i < j < |areas| && areas[i].Contains(x, y) ==> !areas[j].Contains(x, y)
  }

  /** The areas tile the image: inside it, pairwise disjoint, covering every pixel. */
  ghost predicate Tiling(areas: seq<Area>, width: int, height: int)
  {
    (forall i :: 0 <= i < |areas| ==> Inside(areas[i], width, height)) &&
    PairwiseDisjoint(areas) &&
    (forall x, y :: 0 <= x < width && 0 <= y < height ==> Covered(areas, x, y))
  }

  /** The origins come in strictly increasing row-major order. */
  ghost predicate Ordered(areas: seq<Area>)
  {
    forall i, j :: 0 <= i < j < |areas| ==> Before(areas[i].X, areas[i].Y, areas[j].X, areas[j].Y)
  }

  /** In a tiling every pixel of the image lies in exactly one area. */
  lemma TilingOwner(areas: seq<Area>, width: int, height: int, x: int, y: int)
    requires Tiling(areas, width, height) && 0 <= x < width && 0 <= y < height
    ensures exists i :: 0 <= i < |areas| && areas[i].Contains(x, y) &&
                        forall j :: 0 <= j < |areas| && areas[j].Contains(x, y) ==> j == i
  {
    assert Covered(areas, x, y);
    var i :| 0 <= i < |areas| && areas[i].Contains(x, y);
    forall j | 0 <= j < |areas| && areas[j].Contains(x, y)
      ensures j == i
    {
    }
  }

  // ---------------------------------------------------------------------
  // The shape search of getAreaSize, as specification functions

  const MaxUint8 := 255

  /** The height tried for diagonal d and width w: d - w, cut so that the
      rectangle ends on the row above the last one when it would reach it. */
  function Clip(y: int, height: int, h: int): int
  {
    if y + h >= height then height - y - 1 else h
  }

  /** The inner loop of one diagonal d, from width w on, with current best
      bw by bh: a candidate replaces the best when its area is at least as
      large and the quality test accepts it. Returns the final best and
      whether anything was replaced. */
  function Pass(accept: Acceptance, height: int, x: int, y: int, maxW: int, d: int,
                w: int, bw: int, bh: int, found: bool): (int, int, bool)
    decreases d - w
  {
    if w < d && w < maxW then
      var h := Clip(y, height, d - w);
      if bw * bh <= w * h && accept(x, y, x + w, y + h) then
        Pass(accept, height, x, y, maxW, d, w + 1, w, h, true)
      else
        Pass(accept, height, x, y, maxW, d, w + 1, bw, bh, found)
    else
      (bw, bh, found)
  }

  /** The outer loop from diagonal d on: it stops after the first diagonal
      that replaced nothing, and at the latest before diagonal 255. */
  function Grow(accept: Acceptance, height: int, x: int, y: int, maxW: int, d: int,
                bw: int, bh: int): (int, int)
    decreases MaxUint8 - d
  {
    if d < MaxUint8 then
      var (nw, nh, found) := Pass(accept, height, x, y, maxW, d, 1, bw, bh, false);
      if found then Grow(accept, height, x, y, maxW, d + 1, nw, nh) else (nw, nh)
    else
      (bw, bh)
  }

  /** getAreaSize for a free run of maxW pixels at (x, y): the grown shape,
      whose width is widened to the whole run when it falls short of the run
      by at most 2. */
  function AreaSize(accept: Acceptance, height: int, x: int, y: int, maxW: int): (int, int)
  {
    var (bw, bh) := Grow(accept, height, x, y, maxW, 2, 1, 1);
    (if maxW - bw <= 2 then maxW else bw, bh)
  }

  /** A shape the search may hold: the initial 1 by 1, or one the quality
      test accepted, narrower than the run, at most 253 high and ending above
      the last row. */
  ghost predicate Candidate(accept: Acceptance, height: int, x: int, y: int, maxW: int, bw: int, bh: int)
  {
    (bw == 1 && bh == 1) ||
    (1 <= bw < maxW && 1 <= bh <= 253 && y + bh <= height - 1 && accept(x, y, x + bw, y + bh))
  }

  lemma {:induction false} PassKeepsCandidate(accept: Acceptance, height: int, x: int, y: int, maxW: int,
                                              d: int, w: int, bw: int, bh: int, found: bool)
    requires 2 <= d < MaxUint8 && 1 <= w && 0 <= y < height
    requires Candidate(accept, height, x, y, maxW, bw, bh)
    ensures var (nw, nh, _) := Pass(accept, height, x, y, maxW, d, w, bw, bh, found);
      Candidate(accept, height, x, y, maxW, nw, nh) && bw * bh <= nw * nh
    decreases d - w
  {
    if w < d && w < maxW {
      var h := Clip(y, height, d - w);
      if bw * bh <= w * h && accept(x, y, x + w, y + h) {
        ReplacementHeight(bw, bh, w, h);
        PassKeepsCandidate(accept, height, x, y, maxW, d, w + 1, w, h, true);
      } else {
        PassKeepsCandidate(accept, height, x, y, maxW, d, w + 1, bw, bh, found);
      }
    }
  }

  /** A shape that replaces a best of at least 1 by 1 is at least one row high. */
  lemma ReplacementHeight(bw: int, bh: int, w: int, h: int)
    requires 1 <= bw && 1 <= bh && 0 <= w && bw * bh <= w * h
    ensures 1 <= h
  {
    MulAtLeastOne(bw, bh);
    if h <= 0 {
      MulNonPositive(w, h);
    }
  }

  lemma MulAtLeastOne(a: int, b: int)
    requires a >= 1 && b >= 1
    ensures a * b >= 1
  {
  }

  lemma MulNonPositive(a: int, b: int)
    requires a >= 0 && b <= 0
    ensures a * b <= 0
  {
  }

  lemma {:induction false} GrowKeepsCandidate(accept: Acceptance, height: int, x: int, y: int, maxW: int,
                                              d: int, bw: int, bh: int)
    requires 2 <= d && 0 <= y < height
    requires Candidate(accept, height, x, y, maxW, bw, bh)
    ensures var (nw, nh) := Grow(accept, height, x, y, maxW, d, bw, bh);
      Candidate(accept, height, x, y, maxW, nw, nh) && bw * bh <= nw * nh
    decreases MaxUint8 - d
  {
    if d < MaxUint8 {
      PassKeepsCandidate(accept, height, x, y, maxW, d, 1, bw, bh, false);
      var (nw, nh, found) := Pass(accept, height, x, y, maxW, d, 1, bw, bh, false);
      if found {
        GrowKeepsCandidate(accept, height, x, y, maxW, d + 1, nw, nh);
      }
    }
  }

  /** The chosen size fits the run and the image: at least 1 wide when the
      run is non-empty and never wider than the run, 1 to 253 high, and a
      shape more than one row high ends above the image's last row. */
  lemma AreaSizeBounds(accept: Acceptance, height: int, x: int, y: int, maxW: int)
    requires 0 <= y < height && 0 <= maxW <= MaxUint8
    ensures var (w, h) := AreaSize(accept, height, x, y, maxW);
      0 <= w <= maxW && (1 <= maxW ==> 1 <= w) &&
      1 <= h <= 253 && y + h <= height && (h > 1 ==> y + h <= height - 1)
  {
    GrowKeepsCandidate(accept, height, x, y, maxW, 2, 1, 1);
  }

  /** The chosen shape is the grown one, which is 1 by 1 or accepted by the
      quality test and at least as large as 1 by 1; its width alone may then
      be widened to the whole run, without a new quality test. */
  lemma AreaSizeAccepted(accept: Acceptance, height: int, x: int, y: int, maxW: int)
    requires 0 <= y < height
    ensures var (bw, bh) := Grow(accept, height, x, y, maxW, 2, 1, 1);
      var (w, h) := AreaSize(accept, height, x, y, maxW);
      ((bw == 1 && bh == 1) || accept(x, y, x + bw, y + bh)) &&
      h == bh && (w == bw || (w == maxW && maxW - bw <= 2))
  {
    GrowKeepsCandidate(accept, height, x, y, maxW, 2, 1, 1);
  }

  // ---------------------------------------------------------------------
  // The free run at a pixel

  /** The number of uncovered pixels from (x + m, y) rightwards, stopping at
      the image's edge and at 255 pixels in total (the first loop of getAreaSize). */
  ghost function RunFrom(c: array2<bool>, x: int, y: int, m: int): int
    requires 0 <= x && 0 <= y < c.Length1 && 0 <= m
    reads c
    decreases MaxUint8 - m
  {
    if x + m < c.Length0 && m < MaxUint8 && !c[x + m, y] then RunFrom(c, x, y, m + 1) else m
  }

  /** The n pixels from (x, y) rightwards lie in the image and are uncovered. */
  ghost predicate FreeRun(c: array2<bool>, x: int, y: int, n: int)
    requires 0 <= y < c.Length1
    reads c
  {
    forall px :: x <= px < x + n ==> 0 <= px < c.Length0 && !c[px, y]
  }

  lemma {:induction false} RunFromBounds(c: array2<bool>, x: int, y: int, m: int)
    requires 0 <= x && 0 <= y < c.Length1 && 0 <= m <= MaxUint8
    requires FreeRun(c, x, y, m)
    ensures m <= RunFrom(c, x, y, m) <= MaxUint8
    ensures FreeRun(c, x, y, RunFrom(c, x, y, m))
    ensures x + m < c.Length0 && m < MaxUint8 && !c[x + m, y] ==> m < RunFrom(c, x, y, m)
    decreases MaxUint8 - m
  {
    if x + m < c.Length0 && m < MaxUint8 && !c[x + m, y] {
      RunFromBounds(c, x, y, m + 1);
    }
  }

  /** The w-by-h area at (x, y) carrying the channel's samples at its four
      corners, as findLargestNonEncodedArea reads them. */
  function Sampled(values: seq<seq<Byte>>, width: int, height: int, x: int, y: int, w: Byte, h: Byte): (a: Area)
    requires IsChannel(values, width, height)
    requires 1 <= w && 1 <= h && 0 <= x && x + w <= width && 0 <= y && y + h <= height
    ensures a.X == x && a.Y == y && a.W == w && a.H == h
    ensures SampledCorners(a, values, width, height)
  {
    Area(x, y, w, h, [values[x][y], values[x + w - 1][y], values[x][y + h - 1], values[x + w - 1][y + h - 1]])
  }

  /** Under the growth order, a free run in the frontier's row is the top of
      a free block of any height that fits the image. */
  lemma FreeBlock(c: array2<bool>, x: int, y: int, w: int, h: int)
    requires 0 <= x && x + w <= c.Length0 && 0 <= y < c.Length1 && y + h <= c.Length1
    requires Staircase(c, y) && FreeRun(c, x, y, w)
    ensures forall px, py :: x <= px < x + w && y <= py < y + h ==> !c[px, py]
  {
    forall px, py | x <= px < x + w && y <= py < y + h
      ensures !c[px, py]
    {
      assert !c[px, y];
      ColumnStaysFree(c, y, px, py);
    }
  }

  // ---------------------------------------------------------------------
  // The encoder of one channel

  class ChannelEncoder {
    /** coveredPixel, indexed [x, y] */
    const covered: array2<bool>
    /** minUncoveredPixelX / minUncoveredPixelY: the frontier, (-1, -1) when done */
    var minX: int
    var minY: int
    const width: int
    const height: int
    /** The quality test on this encoder's channel. */
    const acceptable: Acceptance

    /** The frontier is the first uncovered pixel in row-major order, or
        (-1, -1) once every pixel is covered. */
    ghost predicate Valid()
      reads this, covered
    {
      covered.Length0 == width && covered.Length1 == height && 1 <= width && 1 <= height &&
      if minX == -1 || minY == -1 then
        minX == -1 && minY == -1 && Full(covered)
      else
        0 <= minX < width && 0 <= minY < height && !covered[minX, minY] &&
        CoveredBefore(covered, minX, minY)
    }

    /** What the growth order of the areas adds (the assumption in the doc
        comment of findMinUncoveredPixel): below the frontier's row, covered
        pixels are closed upwards, so a pixel free in the frontier's row is
        free all the way down. */
    ghost predicate Greedy()
      reads this, covered
    {
      Valid() && (minY != -1 ==> Staircase(covered, minY))
    }

    /** newChannelEncoder: nothing covered, the frontier at (0, 0). */
    constructor (width: int, height: int, acceptable: Acceptance)
      requires 1 <= width && 1 <= height
      ensures Greedy() && fresh(covered)
      ensures this.width == width && this.height == height && this.acceptable == acceptable
      ensures minX == 0 && minY == 0
      ensures forall x, y :: 0 <= x < width && 0 <= y < height ==> !covered[x, y]
    {
      covered := new bool[width, height]((_, _) => false);
      minX, minY := 0, 0;
      this.width, this.height, this.acceptable := width, height, acceptable;
    }

    /** findMinUncoveredPixel: the first uncovered pixel from the frontier's
        row on, or (-1, -1). */
    method FindMinUncoveredPixel() returns (x: int, y: int)
      requires covered.Length0 == width && covered.Length1 == height && 0 <= minY
      ensures x == -1 && y == -1 ==>
        forall px, py :: 0 <= px < width && minY <= py < height ==> covered[px, py]
      ensures !(x == -1 && y == -1) ==>
        0 <= x < width && minY <= y < height && !covered[x, y] &&
        forall px, py :: 0 <= px < width && minY <= py < height && Before(px, py, x, y) ==> covered[px, py]
    {
      x, y := ScanFrom(covered, minY);
    }

    /** addToCoverageMap: marks the area's pixels and moves the frontier to
        the first uncovered pixel. */
    method AddToCoverageMap(a: Area)
      requires Valid() && 0 <= minY
      requires a.W == 0 || a.H == 0 || (0 <= a.X && a.X + a.W <= width && 0 <= a.Y && a.Y + a.H <= height)
      modifies this, covered
      ensures Valid()
      ensures forall x, y :: 0 <= x < width && 0 <= y < height ==>
        covered[x, y] == (old(covered[x, y]) || a.Contains(x, y))
      ensures minX == -1 || !Before(minX, minY, old(minX), old(minY))
      ensures a.Contains(old(minX), old(minY)) ==> minX == -1 || Before(old(minX), old(minY), minX, minY)
      ensures old(Staircase(covered, minY)) && a.Y == old(minY) ==> minY == -1 || Staircase(covered, minY)
    {
      ghost var row := minY;
      Mark(covered, a.X, a.Y, a.W, a.H);
      minX, minY := FindMinUncoveredPixel();
      if minX != -1 && old(Staircase(covered, minY)) && a.Y == row {
        forall x, y | 0 <= x < width && minY < y && 0 < y < height && covered[x, y]
          ensures covered[x, y - 1]
        {
          if !old(covered[x, y]) {
            assert a.Contains(x, y - 1);
          }
        }
      }
    }

    /** The first loop of getAreaSize: the length of the free run at (x, y). */
    method RunLength(x: int, y: int) returns (maxW: int)
      requires covered.Length0 == width && covered.Length1 == height
      requires 0 <= x && 0 <= y < height
      ensures maxW == RunFrom(covered, x, y, 0)
      ensures 0 <= maxW <= MaxUint8 && FreeRun(covered, x, y, maxW)
      ensures maxW == 0 || x + maxW <= width
      ensures x < width && !covered[x, y] ==> 1 <= maxW
    {
      maxW := 0;
      RunFromBounds(covered, x, y, 0);
      while x + maxW < width && maxW < MaxUint8
        invariant 0 <= maxW <= MaxUint8
        invariant maxW == 0 || x + maxW <= width
        invariant FreeRun(covered, x, y, maxW)
        invariant RunFrom(covered, x, y, maxW) == RunFrom(covered, x, y, 0)
      {
        if covered[x + maxW, y] {
          break;
        }
        maxW := maxW + 1;
      }
    }

    /** The inner loop of getAreaSize for diagonal d: the widths 1 .. d-1
        below the run length, each with height d - w clipped to the image,
        replacing the best shape by any at least as large that the quality
        test accepts. Every quality test it makes reads only samples inside
        the image. */
    method Diagonal(x: int, y: int, maxW: int, d: int, bw: int, bh: int) returns (nw: int, nh: int, found: bool)
      requires 0 <= x && (maxW == 0 || x + maxW <= width) && 0 <= y < height && 2 <= d < MaxUint8
      requires Candidate(acceptable, height, x, y, maxW, bw, bh)
      ensures (nw, nh, found) == Pass(acceptable, height, x, y, maxW, d, 1, bw, bh, false)
      ensures Candidate(acceptable, height, x, y, maxW, nw, nh)
    {
      nw, nh, found := bw, bh, false;
      var w := 1;
      while w < d && w < maxW
        invariant 1 <= w
        invariant Candidate(acceptable, height, x, y, maxW, nw, nh)
        invariant Pass(acceptable, height, x, y, maxW, d, w, nw, nh, found)
               == Pass(acceptable, height, x, y, maxW, d, 1, bw, bh, false)
      {
        nw, nh, found := DiagonalStep(x, y, maxW, d, w, nw, nh, found);
        w := w + 1;
      }
    }

    /** One width w of the inner loop: the shape w wide and d - w high,
        clipped to the image, replaces the best one when it is at least as
        large and the quality test accepts it. */
    method DiagonalStep(x: int, y: int, maxW: int, d: int, w: int, bw: int, bh: int, found: bool)
      returns (nw: int, nh: int, nfound: bool)
      requires 0 <= x && (maxW == 0 || x + maxW <= width) && 0 <= y < height && 2 <= d < MaxUint8
      requires 1 <= w < d && w < maxW
      requires Candidate(acceptable, height, x, y, maxW, bw, bh)
      ensures Pass(acceptable, height, x, y, maxW, d, w + 1, nw, nh, nfound)
           == Pass(acceptable, height, x, y, maxW, d, w, bw, bh, found)
      ensures Candidate(acceptable, height, x, y, maxW, nw, nh)
    {
      nw, nh, nfound := bw, bh, found;
      var h := d - w;
      if y + h >= height {
        h := height - y - 1;
      }
      assert h == Clip(y, height, d - w);
      if bw * bh <= w * h {
        assert x + w < width && y + h < height;
        var ok := acceptable(x, y, x + w, y + h);
        if ok {
          ReplacementHeight(bw, bh, w, h);
          nw, nh, nfound := w, h, true;
        }
      }
    }

    /** getAreaSize(x, y): the size AreaSize picks for the free run at (x, y). */
    method GetAreaSize(x: int, y: int) returns (w: Byte, h: Byte)
      requires covered.Length0 == width && covered.Length1 == height
      requires 0 <= x && 0 <= y < height
      ensures w == AreaSize(acceptable, height, x, y, RunFrom(covered, x, y, 0)).0
      ensures h == AreaSize(acceptable, height, x, y, RunFrom(covered, x, y, 0)).1
      ensures FreeRun(covered, x, y, w) && (w == 0 || x + w <= width)
      ensures x < width && !covered[x, y] ==> 1 <= w
      ensures 1 <= h && y + h <= height && (h > 1 ==> y + h <= height - 1)
    {
      var maxW := RunLength(x, y);
      var bestW, bestH := 1, 1;
      var d := 2;
      while d < MaxUint8
        invariant 2 <= d <= MaxUint8
        invariant Candidate(acceptable, height, x, y, maxW, bestW, bestH)
        invariant Grow(acceptable, height, x, y, maxW, d, bestW, bestH) == Grow(acceptable, height, x, y, maxW, 2, 1, 1)
      {
        var found;
        bestW, bestH, found := Diagonal(x, y, maxW, d, bestW, bestH);
        if !found {
          break;
        }
        d := d + 1;
      }
      AreaSizeBounds(acceptable, height, x, y, maxW);
      if maxW - bestW <= 2 {
        bestW := maxW;
      }
      w, h := bestW, bestH;
    }

    /** findLargestNonEncodedArea: nothing once every pixel is covered;
        otherwise the area of AreaSize at the frontier, with the corner
        samples of `values`, which it marks as covered. The area lies inside
        the image and on uncovered pixels only, and the frontier moves past
        its origin. */
    method FindLargestNonEncodedArea(values: seq<seq<Byte>>) returns (r: Option<Area>)
      requires Greedy() && IsChannel(values, width, height)
      modifies this, covered
      ensures Greedy()
      ensures old(minX) == -1 ==> r.None? && minX == -1 && minY == -1
      ensures old(minX) == -1 ==> forall x, y :: 0 <= x < width && 0 <= y < height ==> covered[x, y] == old(covered[x, y])
      ensures old(minX) != -1 ==> (r.Some? &&
        r.value.X == old(minX) && r.value.Y == old(minY) &&
        r.value.W == old(AreaSize(acceptable, height, minX, minY, RunFrom(covered, minX, minY, 0)).0) &&
        r.value.H == old(AreaSize(acceptable, height, minX, minY, RunFrom(covered, minX, minY, 0)).1) &&
        Inside(r.value, width, height) && SampledCorners(r.value, values, width, height) &&
        (forall x, y :: 0 <= x < width && 0 <= y < height && r.value.Contains(x, y) ==> !old(covered[x, y])) &&
        (forall x, y :: 0 <= x < width && 0 <= y < height ==>
           covered[x, y] == (old(covered[x, y]) || r.value.Contains(x, y))) &&
        (minX == -1 || Before(old(minX), old(minY), minX, minY)))
    {
      var areaX, areaY := minX, minY;
      if areaX == -1 || areaY == -1 {
        return None;
      }
      var areaW, areaH := GetAreaSize(areaX, areaY);
      var area := Sampled(values, width, height, areaX, areaY, areaW, areaH);
      FreeBlock(covered, areaX, areaY, areaW, areaH);
      AddToCoverageMap(area);
      return Some(area);
    }

    /** What encodeChannel keeps while it runs, for the areas produced so
        far and the pixels `start` covered when it began: the areas are
        inside the image, carry their corner samples, are disjoint and
        ordered by origin, start before the frontier, lie on pixels outside
        `start`, and a pixel is covered exactly when it is in `start` or in
        one of them. */
    ghost predicate Encoded(result: seq<Area>, values: seq<seq<Byte>>, start: set<(int, int)>)
      requires IsChannel(values, width, height)
      reads this, covered
    {
      covered.Length0 == width && covered.Length1 == height &&
      (forall i :: 0 <= i < |result| ==>
         Inside(result[i], width, height) && SampledCorners(result[i], values, width, height)) &&
      PairwiseDisjoint(result) && Ordered(result) &&
      (forall x, y :: 0 <= x < width && 0 <= y < height ==>
         covered[x, y] == ((x, y) in start || Covered(result, x, y))) &&
      (forall i, x, y :: 0 <= i < |result| && 0 <= x < width && 0 <= y < height && result[i].Contains(x, y) ==>
         (x, y) !in start) &&
      (minX != -1 ==> forall i :: 0 <= i < |result| ==> Before(result[i].X, result[i].Y, minX, minY))
    }

    /** One round of encodeChannel's loop: the next area, appended to the
        areas so far, keeps Encoded, and the frontier moves on. */
    method EncodeStep(values: seq<seq<Byte>>, ghost start: set<(int, int)>, ghost before: seq<Area>)
      returns (area: Option<Area>)
      requires Greedy() && IsChannel(values, width, height) && Encoded(before, values, start)
      modifies this, covered
      ensures Greedy()
      ensures area.None? ==> minX == -1 && Encoded(before, values, start)
      ensures area.Some? ==>
        (old(minX) != -1 && Encoded(before + [area.value], values, start) &&
         (minX == -1 || Before(old(minX), old(minY), minX, minY)))
    {
      area := FindLargestNonEncodedArea(values);
      if area.Some? {
        AppendArea(before, area.value, width, height);
      }
    }

    /** encodeChannel: areas until the frontier is exhausted. Starting from
        any greedy state, the areas are inside the image, disjoint, ordered
        by origin, lie on pixels that were uncovered, carry their corner
        samples, and together with what was covered cover the whole image. */
    method EncodeChannel(values: seq<seq<Byte>>) returns (result: seq<Area>)
      requires Greedy() && IsChannel(values, width, height)
      modifies this, covered
      ensures Valid() && minX == -1 && Full(covered)
      ensures forall i :: 0 <= i < |result| ==>
        Inside(result[i], width, height) && SampledCorners(result[i], values, width, height)
      ensures PairwiseDisjoint(result) && Ordered(result)
      ensures forall x, y :: 0 <= x < width && 0 <= y < height ==> old(covered[x, y]) || Covered(result, x, y)
      ensures forall i, x, y :: 0 <= i < |result| && 0 <= x < width && 0 <= y < height && result[i].Contains(x, y) ==>
        !old(covered[x, y])
    {
      ghost var start := set x, y | 0 <= x < width && 0 <= y < height && covered[x, y] :: (x, y);
      result := [];
      while true
        invariant Greedy() && Encoded(result, values, start)
        decreases if minX == -1 then 0 else height - minY + 1, if minX == -1 then 0 else width - minX
      {
        var area := EncodeStep(values, start, result);
        if area.None? {
          break;
        }
        result := result + [area.value];
      }
    }
  }

  /** Appending an area that starts after every earlier origin and shares no
      pixel with the earlier areas keeps the list disjoint and ordered, and
      adds exactly its pixels to what the list covers. */
  lemma AppendArea(before: seq<Area>, a: Area, width: int, height: int)
    requires PairwiseDisjoint(before) && Ordered(before) && Inside(a, width, height)
    requires forall i :: 0 <= i < |before| ==> Before(before[i].X, before[i].Y, a.X, a.Y)
    requires forall x, y :: 0 <= x < width && 0 <= y < height && a.Contains(x, y) ==> !Covered(before, x, y)
    ensures PairwiseDisjoint(before + [a]) && Ordered(before + [a])
    ensures forall x, y :: Covered(before + [a], x, y) == (Covered(before, x, y) || a.Contains(x, y))
  {
    var result := before + [a];
    forall i, j, x, y | 0 <= i < j < |result| && result[i].Contains(x, y)
      ensures !result[j].Contains(x, y)
    {
      if j == |before| && a.Contains(x, y) {
        assert Covered(before, x, y);
      }
    }
    forall x, y
      ensures Covered(result, x, y) == (Covered(before, x, y) || a.Contains(x, y))
    {
      CoveredAppend(before, a, x, y);
    }
  }

  lemma CoveredAppend(areas: seq<Area>, a: Area, x: int, y: int)
    ensures Covered(areas + [a], x, y) == (Covered(areas, x, y) || a.Contains(x, y))
  {
    if a.Contains(x, y) {
      assert (areas + [a])[|areas|] == a;
    }
    if Covered(areas, x, y) {
      var i :| 0 <= i < |areas| && areas[i].Contains(x, y);
      assert (areas + [a])[i] == areas[i];
    }
  }

  /** encodeChannel on a fresh encoder: a tiling of the image, in row-major
      order of origins, each area carrying its corner samples. */
  method EncodeFresh(width: int, height: int, values: seq<seq<Byte>>, accept: Acceptance) returns (areas: seq<Area>)
    requires 1 <= width && 1 <= height && IsChannel(values, width, height)
    ensures Tiling(areas, width, height) && Ordered(areas)
    ensures forall i :: 0 <= i < |areas| ==> SampledCorners(areas[i], values, width, height)
  {
    var e := new ChannelEncoder(width, height, accept);
    areas := e.EncodeChannel(values);
  }

  /** Encode: the four channels R, G, B, A, each by its own fresh encoder
      (with the quality test on that channel). The error result is always nil. */
  method Encode(width: int, height: int, channels: seq<seq<seq<Byte>>>, accept: seq<Acceptance>)
    returns (areas: seq<seq<Area>>)
    requires 1 <= width && 1 <= height && |channels| == 4 && |accept| == 4
    requires forall c :: 0 <= c < 4 ==> IsChannel(channels[c], width, height)
    ensures |areas| == 4
    ensures forall c :: 0 <= c < 4 ==> Tiling(areas[c], width, height) && Ordered(areas[c])
    ensures forall c, i :: 0 <= c < 4 && 0 <= i < |areas[c]| ==>
      SampledCorners(areas[c][i], channels[c], width, height)
  {
    var r := EncodeFresh(width, height, channels[0], accept[0]);
    var g := EncodeFresh(width, height, channels[1], accept[1]);
    var b := EncodeFresh(width, height, channels[2], accept[2]);
    var a := EncodeFresh(width, height, channels[3], accept[3]);
    areas := [r, g, b, a];
  }

  // ---------------------------------------------------------------------
  // The debug image

  /** (x, y) is one of the four corner pixels of a. */
  predicate IsCorner(a: Area, x: int, y: int)
  {
    (x == a.X || x == a.X + a.W - 1) && (y == a.Y || y == a.Y + a.H - 1)
  }

  ghost predicate HasCorner(areas: seq<Area>, x: int, y: int)
  {
    exists i :: 0 <= i < |areas| && IsCorner(areas[i], x, y)
  }

  /** The four corner pixels of a lie in the width-by-height grid. */
  predicate CornersIn(a: Area, width: int, height: int)
  {
    0 <= a.X < width && 0 <= a.X + a.W - 1 < width && 0 <= a.Y < height && 0 <= a.Y + a.H - 1 < height
  }

  lemma HasCornerAppend(areas: seq<Area>, a: Area, x: int, y: int)
    ensures HasCorner(areas + [a], x, y) == (HasCorner(areas, x, y) || IsCorner(a, x, y))
  {
    if IsCorner(a, x, y) {
      assert (areas + [a])[|areas|] == a;
    }
    if HasCorner(areas, x, y) {
      var i :| 0 <= i < |areas| && IsCorner(areas[i], x, y);
      assert (areas + [a])[i] == areas[i];
    }
  }

  /** The loop over one channel's areas in GetDebugImage: the four corner
      pixels of every area become 255, every other pixel is left alone. */
  method MarkCorners(plane: array2<Byte>, areas: seq<Area>)
    requires forall i :: 0 <= i < |areas| ==> CornersIn(areas[i], plane.Length0, plane.Length1)
    modifies plane
    ensures forall x, y :: 0 <= x < plane.Length0 && 0 <= y < plane.Length1 ==>
      plane[x, y] == if HasCorner(areas, x, y) then 255 else old(plane[x, y])
  {
    var i := 0;
    while i < |areas|
      invariant 0 <= i <= |areas|
      invariant forall x, y :: 0 <= x < plane.Length0 && 0 <= y < plane.Length1 ==>
        plane[x, y] == if HasCorner(areas[..i], x, y) then 255 else old(plane[x, y])
    {
      var area := areas[i];
      plane[area.X, area.Y] := 255;
      plane[area.X + area.W - 1, area.Y] := 255;
      plane[area.X, area.Y + area.H - 1] := 255;
      plane[area.X + area.W - 1, area.Y + area.H - 1] := 255;
      forall x, y | 0 <= x < plane.Length0 && 0 <= y < plane.Length1
        ensures HasCorner(areas[..i + 1], x, y) == (HasCorner(areas[..i], x, y) || IsCorner(area, x, y))
      {
        assert areas[..i + 1] == areas[..i] + [area];
        HasCornerAppend(areas[..i], area, x, y);
      }
      i := i + 1;
    }
    assert areas[..|areas|] == areas;
  }

  /** The last loop of GetDebugImage: every pixel of the plane set to 255. */
  method FillOpaque(plane: array2<Byte>)
    modifies plane
    ensures forall x, y :: 0 <= x < plane.Length0 && 0 <= y < plane.Length1 ==> plane[x, y] == 255
  {
    var x := 0;
    while x < plane.Length0
      invariant 0 <= x <= plane.Length0
      invariant forall px, py :: 0 <= px < x && 0 <= py < plane.Length1 ==> plane[px, py] == 255
    {
      var y := 0;
      while y < plane.Length1
        invariant 0 <= y <= plane.Length1
        invariant forall px, py :: 0 <= px < x && 0 <= py < plane.Length1 ==> plane[px, py] == 255
        invariant forall py :: 0 <= py < y ==> plane[x, py] == 255
      {
        plane[x, y] := 255;
        y := y + 1;
      }
      x := x + 1;
    }
  }

  /** GetDebugImage: in the planes R, G and B a pixel is 255 exactly when it
      is a corner of one of that channel's areas, and 0 otherwise; the plane
      A is 255 everywhere (its corner marks are overwritten). */
  method GetDebugImage(width: int, height: int, areas: seq<seq<Area>>) returns (img: Canvas.Image)
    requires 0 <= width && 0 <= height && |areas| == 4
    requires forall c, i :: 0 <= c < 4 && 0 <= i < |areas[c]| ==> CornersIn(areas[c][i], width, height)
    ensures img.width == width && img.height == height && |img.planes| == 4
    ensures forall c :: 0 <= c < 4 ==> img.planes[c].Length0 == width && img.planes[c].Length1 == height
    ensures forall c, x, y :: 0 <= c < 3 && 0 <= x < width && 0 <= y < height ==>
      img.planes[c][x, y] == if HasCorner(areas[c], x, y) then 255 else 0
    ensures forall x, y :: 0 <= x < width && 0 <= y < height ==> img.planes[3][x, y] == 255
  {
    var red := new Byte[width, height]((_, _) => 0);
    var green := new Byte[width, height]((_, _) => 0);
    var blue := new Byte[width, height]((_, _) => 0);
    var alpha := new Byte[width, height]((_, _) => 0);
    MarkCorners(red, areas[0]);
    MarkCorners(green, areas[1]);
    MarkCorners(blue, areas[2]);
    MarkCorners(alpha, areas[3]);
    FillOpaque(alpha);
    img := Canvas.Image(width, height, [red, green, blue, alpha]);
  }
}

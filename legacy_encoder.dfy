/** The earlier encoder of cobi/encoding/encoding.go. It keeps the same
    coverage grid and frontier as the greedy encoder, but every area it
    places at the frontier is 3 by 3, cut at the image's right and bottom
    edges, whatever the coverage grid holds. From a fresh encoder the areas
    come in bands of rows, left to right, and tile the image; from an
    arbitrary coverage state an area may overlap covered pixels. */
module LegacyEncoder {
  import opened Basics
  import opened Coverage
  import Canvas
  import Util

  /** EncodedArea of encoding.go: origin, size and the samples at the
      upper-left, upper-right, bottom-left and bottom-right pixel. */
  datatype Area = Area(X: int, Y: int, W: int, H: int, Values: Quad)
  {
    /** Contains: the half-open box [X, X+W) x [Y, Y+H). */
    predicate Contains(x: int, y: int)
    {
      X <= x && x <= X + W - 1 && Y <= y && y <= Y + H - 1
    }

    /** GetInterpolatedArea hands these four values to the interpolator. */
    function AsPatch(): (p: Canvas.Patch)
      ensures p.x == X && p.y == Y && p.w == W && p.h == H && p.corners == Values
      ensures forall x, y :: Canvas.Covers(p, x, y) <==> Contains(x, y)
    {
      Canvas.Patch(X, Y, W, H, Values)
    }
  }

  /** The fixed side of an area at position p of an extent: 3, or what is
      left of the extent when 3 would reach its end. */
  function Side(p: int, extent: int): (s: int)
    ensures s <= 3 && s <= extent - p && (s == 3 || s == extent - p)
  {
    if p + 3 >= extent then extent - p else 3
  }

  predicate Inside(a: Area, width: int, height: int)
  {
    1 <= a.W && 1 <= a.H && 0 <= a.X && a.X + a.W <= width && 0 <= a.Y && a.Y + a.H <= height
  }

  /** The area lies inside the image and its values are the channel's
      samples at its four corners. */
  predicate SampledCorners(a: Area, values: seq<seq<Byte>>, width: int, height: int)
    requires IsChannel(values, width, height)
  {
    Inside(a, width, height) &&
    a.Values == [values[a.X][a.Y], values[a.X + a.W - 1][a.Y],
                 values[a.X][a.Y + a.H - 1], values[a.X + a.W - 1][a.Y + a.H - 1]]
  }

  ghost predicate Covered(areas: seq<Area>, x: int, y: int)
  {
    exists i :: 0 <= i < |areas| && areas[i].Contains(x, y)
  }

  ghost predicate PairwiseDisjoint(areas: seq<Area>)
  {
    forall i, j, x, y :: 0 <= i < j < |areas| && areas[i].Contains(x, y) ==> !areas[j].Contains(x, y)
  }

  /** The areas tile the image: inside it, pairwise disjoint, covering every pixel. */
  ghost predicate Tiling(areas: seq<Area>, width: int, height: int)
  {
    (forall i :: 0 <= i < |areas| ==> Inside(areas[i], width, height)) &&
    PairwiseDisjoint(areas) &&
    (forall x, y :: 0 <= x < width && 0 <= y < height ==> Covered(areas, x, y))
  }

  lemma CoveredAppend(areas: seq<Area>, a: Area, x: int, y: int)
    ensures Covered(areas + [a], x, y) == (Covered(areas, x, y) || a.Contains(x, y))
  {
    if a.Contains(x, y) {
      assert (areas + [a])[|areas|] == a;
    }
    if Covered(areas, x, y) {
      var i :| 0 <= i < |areas| && areas[i].Contains(x, y);
      assert (areas + [a])[i] == areas[i];
    }
  }

  // ---------------------------------------------------------------------
  // Bands

  /** The coverage a fresh encoder has reached when its frontier is
      (fx, fy): every row above fy, and in the band of rows starting at fy
      every pixel left of fx. */
  predicate BandCovered(fx: int, fy: int, height: int, x: int, y: int)
  {
    y < fy || (y < fy + Side(fy, height) && x < fx)
  }

  /** Where the frontier moves after the area at (fx, fy): right along the
      band, to the start of the next band, or (-1, -1) at the end. */
  function NextFrontier(fx: int, fy: int, width: int, height: int): (int, int)
  {
    if fx + Side(fx, width) < width then (fx + Side(fx, width), fy)
    else if fy + Side(fy, height) < height then (0, fy + Side(fy, height))
    else (-1, -1)
  }

  /** Adding the area at the frontier to the band coverage gives the band
      coverage of the next frontier, or every pixel. */
  lemma BandGrows(fx: int, fy: int, width: int, height: int, x: int, y: int)
    requires 0 <= fx < width && 0 <= fy < height && 0 <= x < width && 0 <= y < height
    ensures var (nx, ny) := NextFrontier(fx, fy, width, height);
      (BandCovered(fx, fy, height, x, y) || InRect(x, y, fx, fy, Side(fx, width), Side(fy, height))) ==
      (nx == -1 || BandCovered(nx, ny, height, x, y))
  {
  }

  /** Two pixels that are both the first uncovered one are the same. */
  lemma FirstUncoveredUnique(c: array2<bool>, x1: int, y1: int, x2: int, y2: int)
    requires 0 <= x1 < c.Length0 && 0 <= y1 < c.Length1 && !c[x1, y1] && CoveredBefore(c, x1, y1)
    requires 0 <= x2 < c.Length0 && 0 <= y2 < c.Length1 && !c[x2, y2] && CoveredBefore(c, x2, y2)
    ensures x1 == x2 && y1 == y2
  {
  }

  // ---------------------------------------------------------------------
  // The encoder of one channel

  class ChannelEncoder {
    /** coveredPixel, indexed [x, y] */
    const covered: array2<bool>
    /** minUncoveredPixelX / minUncoveredPixelY: the frontier, (-1, -1) when done */
    var minX: int
    var minY: int
    const width: int
    const height: int

    /** The frontier is the first uncovered pixel in row-major order, or
        (-1, -1) once every pixel is covered. */
    ghost predicate Valid()
      reads this, covered
    {
      covered.Length0 == width && covered.Length1 == height && 1 <= width && 1 <= height &&
      if minX == -1 || minY == -1 then
        minX == -1 && minY == -1 && Full(covered)
      else
        0 <= minX < width && 0 <= minY < height && !covered[minX, minY] &&
        CoveredBefore(covered, minX, minY)
    }

    /** The coverage is exactly the band coverage of the frontier, as it is
        on a fresh encoder and after every area it places itself. */
    ghost predicate Banded()
      reads this, covered
    {
      Valid() &&
      (minX != -1 ==> forall x, y :: 0 <= x < width && 0 <= y < height ==>
         covered[x, y] == BandCovered(minX, minY, height, x, y))
    }

    /** newChannelEncoder: nothing covered, the frontier at (0, 0). */
    constructor (width: int, height: int)
      requires 1 <= width && 1 <= height
      ensures Banded() && fresh(covered)
      ensures this.width == width && this.height == height
      ensures minX == 0 && minY == 0
      ensures forall x, y :: 0 <= x < width && 0 <= y < height ==> !covered[x, y]
    {
      covered := new bool[width, height]((_, _) => false);
      minX, minY := 0, 0;
      this.width, this.height := width, height;
    }

    /** FindMinUncoveredPixel: the first uncovered pixel from the frontier's
        row on, or (-1, -1). */
    method FindMinUncoveredPixel() returns (x: int, y: int)
      requires covered.Length0 == width && covered.Length1 == height && 0 <= minY
      ensures x == -1 && y == -1 ==>
        forall px, py :: 0 <= px < width && minY <= py < height ==> covered[px, py]
      ensures !(x == -1 && y == -1) ==>
        0 <= x < width && minY <= y < height && !covered[x, y] &&
        forall px, py :: 0 <= px < width && minY <= py < height && Before(px, py, x, y) ==> covered[px, py]
    {
      x, y := ScanFrom(covered, minY);
    }

    /** addToCoverageMap: marks the area's pixels and moves the frontier to
        the first uncovered pixel. */
    method AddToCoverageMap(a: Area)
      requires Valid() && 0 <= minY
      requires a.W <= 0 || a.H <= 0 || (0 <= a.X && a.X + a.W <= width && 0 <= a.Y && a.Y + a.H <= height)
      modifies this, covered
      ensures Valid()
      ensures forall x, y :: 0 <= x < width && 0 <= y < height ==>
        covered[x, y] == (old(covered[x, y]) || a.Contains(x, y))
      ensures minX == -1 || !Before(minX, minY, old(minX), old(minY))
      ensures a.Contains(old(minX), old(minY)) ==> minX == -1 || Before(old(minX), old(minY), minX, minY)
    {
      Mark(covered, a.X, a.Y, a.W, a.H);
      minX, minY := FindMinUncoveredPixel();
    }

    /** findLargestNonEncodedArea: nothing once every pixel is covered;
        otherwise the area at the frontier, Side(x) wide and Side(y) high,
        with the corner samples of `values`, which it marks as covered. On
        a banded encoder the area lies on uncovered pixels only and the
        frontier moves on to NextFrontier. The list of areas found so far
        is passed in but not read. */
    method FindLargestNonEncodedArea(values: seq<seq<Byte>>, areas: seq<Area>) returns (r: Option<Area>)
      requires Valid() && IsChannel(values, width, height)
      modifies this, covered
      ensures Valid()
      ensures old(minX) == -1 ==> r.None? && minX == -1 && minY == -1
      ensures old(minX) == -1 ==> forall x, y :: 0 <= x < width && 0 <= y < height ==> covered[x, y] == old(covered[x, y])
      ensures old(minX) != -1 ==> (r.Some? &&
        r.value.X == old(minX) && r.value.Y == old(minY) &&
        r.value.W == Side(old(minX), width) && r.value.H == Side(old(minY), height) &&
        SampledCorners(r.value, values, width, height) &&
        (forall x, y :: 0 <= x < width && 0 <= y < height ==>
           covered[x, y] == (old(covered[x, y]) || r.value.Contains(x, y))) &&
        (minX == -1 || Before(old(minX), old(minY), minX, minY)))
      ensures old(Banded()) ==> Banded()
      ensures old(Banded()) && old(minX) != -1 ==>
        (minX, minY) == NextFrontier(old(minX), old(minY), width, height) &&
        forall x, y :: 0 <= x < width && 0 <= y < height && r.value.Contains(x, y) ==> !old(covered[x, y])
    {
      var imgWidth := |values|;
      var imgHeight := |values[0]|;
      var areaX, areaY := minX, minY;
      if areaX == -1 || areaY == -1 {
        return None;
      }
      var areaWidth := 3;
      if areaX + areaWidth >= imgWidth {
        areaWidth := imgWidth - areaX;
      }
      var areaHeight := 3;
      if areaY + areaHeight >= imgHeight {
        areaHeight := imgHeight - areaY;
      }
      var area := Area(areaX, areaY, areaWidth, areaHeight,
                       [values[areaX][areaY], values[areaX + areaWidth - 1][areaY],
                        values[areaX][areaY + areaHeight - 1], values[areaX + areaWidth - 1][areaY + areaHeight - 1]]);
      ghost var banded := Banded();
      AddToCoverageMap(area);
      if banded {
        FollowsBand(areaX, areaY);
      }
      return Some(area);
    }

    /** After the area at a banded frontier (fx, fy) is added, the coverage
        is the band coverage of NextFrontier, so the rescan lands there. */
    lemma FollowsBand(fx: int, fy: int)
      requires Valid() && 0 <= fx < width && 0 <= fy < height
      requires forall x, y :: 0 <= x < width && 0 <= y < height ==>
        covered[x, y] == (BandCovered(fx, fy, height, x, y) || InRect(x, y, fx, fy, Side(fx, width), Side(fy, height)))
      ensures (minX, minY) == NextFrontier(fx, fy, width, height)
      ensures minX != -1 ==> forall x, y :: 0 <= x < width && 0 <= y < height ==>
        covered[x, y] == BandCovered(minX, minY, height, x, y)
    {
      var (nx, ny) := NextFrontier(fx, fy, width, height);
      forall x, y | 0 <= x < width && 0 <= y < height
        ensures covered[x, y] == (nx == -1 || BandCovered(nx, ny, height, x, y))
      {
        BandGrows(fx, fy, width, height, x, y);
      }
      if nx == -1 {
        assert Full(covered);
      } else {
        assert 0 <= nx < width && 0 <= ny < height && !covered[nx, ny];
        assert CoveredBefore(covered, nx, ny);
        if minX != -1 {
          FirstUncoveredUnique(covered, minX, minY, nx, ny);
        }
      }
    }

    /** What encodeChannel keeps while it runs, for the areas produced so
        far and the pixels `start` covered when it began: the areas carry
        their corner samples, are disjoint and ordered by origin, start
        before the frontier, lie on pixels outside `start`, and a pixel is
        covered exactly when it is in `start` or in one of them. */
    ghost predicate Encoded(result: seq<Area>, values: seq<seq<Byte>>, start: set<(int, int)>)
      requires IsChannel(values, width, height)
      reads this, covered
    {
      covered.Length0 == width && covered.Length1 == height &&
      (forall i :: 0 <= i < |result| ==> SampledCorners(result[i], values, width, height)) &&
      PairwiseDisjoint(result) &&
      (forall i, j :: 0 <= i < j < |result| ==> Before(result[i].X, result[i].Y, result[j].X, result[j].Y)) &&
      (forall x, y :: 0 <= x < width && 0 <= y < height ==>
         covered[x, y] == ((x, y) in start || Covered(result, x, y))) &&
      (forall i, x, y :: 0 <= i < |result| && 0 <= x < width && 0 <= y < height && result[i].Contains(x, y) ==>
         (x, y) !in start) &&
      (minX != -1 ==> forall i :: 0 <= i < |result| ==> Before(result[i].X, result[i].Y, minX, minY))
    }

    /** One round of encodeChannel's loop on a banded encoder: the next
        area, appended to the areas so far, keeps Encoded, and the frontier
        moves on. */
    method EncodeStep(values: seq<seq<Byte>>, ghost start: set<(int, int)>, areas: seq<Area>)
      returns (area: Option<Area>)
      requires Banded() && IsChannel(values, width, height) && Encoded(areas, values, start)
      modifies this, covered
      ensures Banded()
      ensures area.None? ==> minX == -1 && Encoded(areas, values, start)
      ensures area.Some? ==>
        (old(minX) != -1 && Encoded(areas + [area.value], values, start) &&
         (minX == -1 || Before(old(minX), old(minY), minX, minY)))
    {
      area := FindLargestNonEncodedArea(values, areas);
      if area.Some? {
        AppendArea(areas, area.value, width, height);
      }
    }

    /** encodeChannel on a banded encoder (a fresh one, as Encode uses):
        areas until the frontier is exhausted, inside the image, disjoint,
        ordered by origin, on pixels that were uncovered, with their corner
        samples, and together with what was covered covering the whole
        image. */
    method EncodeChannel(values: seq<seq<Byte>>) returns (result: seq<Area>)
      requires Banded() && IsChannel(values, width, height)
      modifies this, covered
      ensures Valid() && minX == -1 && Full(covered)
      ensures forall i :: 0 <= i < |result| ==> SampledCorners(result[i], values, width, height)
      ensures PairwiseDisjoint(result)
      ensures forall i, j :: 0 <= i < j < |result| ==> Before(result[i].X, result[i].Y, result[j].X, result[j].Y)
      ensures forall x, y :: 0 <= x < width && 0 <= y < height ==> old(covered[x, y]) || Covered(result, x, y)
      ensures forall i, x, y :: 0 <= i < |result| && 0 <= x < width && 0 <= y < height && result[i].Contains(x, y) ==>
        !old(covered[x, y])
    {
      ghost var start := set x, y | 0 <= x < width && 0 <= y < height && covered[x, y] :: (x, y);
      result := [];
      while true
        invariant Banded() && Encoded(result, values, start)
        decreases if minX == -1 then 0 else height - minY + 1, if minX == -1 then 0 else width - minX
      {
        var area := EncodeStep(values, start, result);
        if area.None? {
          break;
        }
        result := result + [area.value];
      }
      forall x, y | 0 <= x < width && 0 <= y < height
        ensures old(covered[x, y]) == ((x, y) in start)
      {
      }
    }
  }

  /** Appending an area that starts after every earlier origin and shares no
      pixel with the earlier areas keeps the list disjoint and ordered, and
      adds exactly its pixels to what the list covers. */
  lemma AppendArea(before: seq<Area>, a: Area, width: int, height: int)
    requires PairwiseDisjoint(before) && Inside(a, width, height)
    requires forall i, j :: 0 <= i < j < |before| ==> Before(before[i].X, before[i].Y, before[j].X, before[j].Y)
    requires forall i :: 0 <= i < |before| ==> Before(before[i].X, before[i].Y, a.X, a.Y)
    requires forall x, y :: 0 <= x < width && 0 <= y < height && a.Contains(x, y) ==> !Covered(before, x, y)
    ensures PairwiseDisjoint(before + [a])
    ensures forall i, j :: 0 <= i < j < |before + [a]| ==>
      Before((before + [a])[i].X, (before + [a])[i].Y, (before + [a])[j].X, (before + [a])[j].Y)
    ensures forall x, y :: Covered(before + [a], x, y) == (Covered(before, x, y) || a.Contains(x, y))
  {
    var result := before + [a];
    forall i, j, x, y | 0 <= i < j < |result| && result[i].Contains(x, y)
      ensures !result[j].Contains(x, y)
    {
      if j == |before| && a.Contains(x, y) {
        assert Covered(before, x, y);
      }
    }
    forall x, y
      ensures Covered(result, x, y) == (Covered(before, x, y) || a.Contains(x, y))
    {
      CoveredAppend(before, a, x, y);
    }
  }

  /** encodeChannel on a fresh encoder: a tiling of the image, each area
      carrying its corner samples. */
  method EncodeFresh(width: int, height: int, values: seq<seq<Byte>>) returns (areas: seq<Area>)
    requires 1 <= width && 1 <= height && IsChannel(values, width, height)
    ensures Tiling(areas, width, height)
    ensures forall i :: 0 <= i < |areas| ==> SampledCorners(areas[i], values, width, height)
  {
    var e := new ChannelEncoder(width, height);
    areas := e.EncodeChannel(values);
  }

  /** Encode: the four channels R, G, B, A, each by its own fresh encoder.
      The error result is always nil. */
  method Encode(width: int, height: int, channels: seq<seq<seq<Byte>>>) returns (areas: seq<seq<Area>>)
    requires 1 <= width && 1 <= height && |channels| == 4
    requires forall c :: 0 <= c < 4 ==> IsChannel(channels[c], width, height)
    ensures |areas| == 4
    ensures forall c :: 0 <= c < 4 ==> Tiling(areas[c], width, height)
    ensures forall c, i :: 0 <= c < 4 && 0 <= i < |areas[c]| ==>
      SampledCorners(areas[c][i], channels[c], width, height)
  {
    var r := EncodeFresh(width, height, channels[0]);
    var g := EncodeFresh(width, height, channels[1]);
    var b := EncodeFresh(width, height, channels[2]);
    var a := EncodeFresh(width, height, channels[3]);
    areas := [r, g, b, a];
  }

  // ---------------------------------------------------------------------
  // Scenarios

  /** The encoder test's setup: a fresh 8 by 8 encoder on which the areas
      (0,0) 4x5, (4,0) 3x2 and (7,0) 1x3 are marked, leaving the frontier
      at (4, 2). */
  method FixtureEncoder(areas: seq<Area>) returns (e: ChannelEncoder)
    requires areas == [Area(0, 0, 4, 5, [0, 0, 0, 0]), Area(4, 0, 3, 2, [0, 0, 0, 0]), Area(7, 0, 1, 3, [0, 0, 0, 0])]
    ensures fresh(e) && fresh(e.covered)
    ensures e.Valid() && e.width == 8 && e.height == 8 && FixtureStage(e.covered, 3)
    ensures e.minX == 4 && e.minY == 2
  {
    e := new ChannelEncoder(8, 8);
    e.AddToCoverageMap(areas[0]);
    assert FixtureStage(e.covered, 1);
    assert !e.covered[7, 7];
    e.AddToCoverageMap(areas[1]);
    assert FixtureStage(e.covered, 2);
    assert !e.covered[7, 7];
    e.AddToCoverageMap(areas[2]);
    assert FixtureStage(e.covered, 3);
    FixtureFrontier(e.covered, 3);
    FirstUncoveredUnique(e.covered, e.minX, e.minY, 4, 2);
  }

  /** The encoder test: on an 8 by 8 channel whose every row is 0 .. 7,
      after the fixture's three areas are marked, the next area is (4,2)
      3x3 with values 4, 6, 4, 6, and the frontier moves to (7,3). */
  method FixtureScenario() returns (area: Option<Area>, fx: int, fy: int)
    ensures area == Some(Area(4, 2, 3, 3, [4, 6, 4, 6]))
    ensures fx == 7 && fy == 3
  {
    var row := [0, 1, 2, 3, 4, 5, 6, 7];
    var rows := [row, row, row, row, row, row, row, row];
    var values := Util.TransposeArray(rows);
    assert values[4][2] == 4 && values[6][2] == 6 && values[4][4] == 4 && values[6][4] == 6;
    var areas := [Area(0, 0, 4, 5, [0, 0, 0, 0]), Area(4, 0, 3, 2, [0, 0, 0, 0]), Area(7, 0, 1, 3, [0, 0, 0, 0])];
    var e := FixtureEncoder(areas);
    area := e.FindLargestNonEncodedArea(values, areas);
    assert FixtureStage(e.covered, 4);
    FixtureFrontier(e.covered, 4);
    FirstUncoveredUnique(e.covered, e.minX, e.minY, 7, 3);
    fx, fy := e.minX, e.minY;
  }

  /** The fixture's coverage once its first `k` areas are marked: (0, 0)
      4x5, (4, 0) 3x2, (7, 0) 1x3, then (4, 2) 3x3. */
  predicate FixtureMarked(x: int, y: int, k: nat)
  {
    (1 <= k && InRect(x, y, 0, 0, 4, 5)) || (2 <= k && InRect(x, y, 4, 0, 3, 2)) ||
    (3 <= k && InRect(x, y, 7, 0, 1, 3)) || (4 <= k && InRect(x, y, 4, 2, 3, 3))
  }

  /** An 8 by 8 grid holds the fixture's coverage after `k` areas. */
  ghost predicate FixtureStage(c: array2<bool>, k: nat)
    reads c
  {
    c.Length0 == 8 && c.Length1 == 8 &&
    forall x, y :: 0 <= x < 8 && 0 <= y < 8 ==> c[x, y] == FixtureMarked(x, y, k)
  }

  /** The first uncovered pixel of the fixture's coverage: (4, 2) after
      three areas and (7, 3) after four. */
  lemma FixtureFrontier(c: array2<bool>, k: nat)
    requires FixtureStage(c, k) && 3 <= k <= 4
    ensures k == 3 ==> !c[4, 2] && CoveredBefore(c, 4, 2)
    ensures k == 4 ==> !c[7, 3] && CoveredBefore(c, 7, 3)
  {
  }

  /** The fixed size ignores the coverage grid: on a 4 by 1 channel whose
      pixel (1, 0) is already covered, the next area still spans it. */
  method OverlapScenario(values: seq<seq<Byte>>) returns (area: Option<Area>, wasCovered: bool)
    requires IsChannel(values, 4, 1)
    ensures wasCovered && area.Some? && area.value.Contains(1, 0)
  {
    var e := new ChannelEncoder(4, 1);
    var marked := Area(1, 0, 1, 1, [0, 0, 0, 0]);
    e.AddToCoverageMap(marked);
    wasCovered := e.covered[1, 0];
    assert !e.covered[0, 0];
    area := e.FindLargestNonEncodedArea(values, [marked]);
  }
}

/** The stub encoder of cobi/encoding.go (package main): an EncodedArea
    whose Contains test includes the far edges, Encode and EncodeChannel
    that produce no areas, and the frontier search getMinUncoveredPixel as
    it is written. FindMinUncoveredPixel below is that search as its doc
    comment describes it. */
module Stub {
  import opened Basics
  import Raster

  /** EncodedArea of cobi/encoding.go. */
  datatype Area = Area(X: int, Y: int, W: int, H: int, Values: Quad)
  {
    /** Contains: inclusive at both ends, X <= x <= X+W and Y <= y <= Y+H. */
    predicate Contains(x: int, y: int)
    {
      X <= x && x <= X + W && Y <= y && y <= Y + H
    }
  }

  /** The inclusive test claims a box one pixel wider and one pixel higher
      than the area's size: the half-open box of W+1 by H+1 pixels. */
  lemma ContainsOneMore(a: Area, x: int, y: int)
    ensures a.Contains(x, y) <==> a.X <= x < a.X + (a.W + 1) && a.Y <= y < a.Y + (a.H + 1)
  {
  }

  /** A 1 by 1 area at the origin claims the pixel diagonally past it. */
  lemma UnitAreaClaimsFour()
    ensures var a := Area(0, 0, 1, 1, [0, 0, 0, 0]);
      a.Contains(0, 0) && a.Contains(1, 0) && a.Contains(0, 1) && a.Contains(1, 1) && !a.Contains(2, 0)
  {
  }

  /** Encode: its loops have empty bodies; the result is four empty lists,
      and the error result is always nil. */
  function Encode(width: int, height: int): (channels: seq<seq<Area>>)
    ensures |channels| == 4
    ensures forall c :: 0 <= c < 4 ==> |channels[c]| == 0
  {
    var none: seq<Area> := [];
    [none, none, none, none]
  }

  /** EncodeChannel: no areas, whatever the samples. */
  function EncodeChannel(values: seq<seq<Byte>>): (areas: seq<Area>)
    ensures |areas| == 0
  {
    []
  }

  /** Whether some area of the list contains pixel (x, y). */
  function AnyContains(areas: seq<Area>, x: int, y: int): (b: bool)
    ensures b <==> exists i :: 0 <= i < |areas| && areas[i].Contains(x, y)
  {
    if |areas| == 0 then false
    else AnyContains(areas[..|areas| - 1], x, y) || areas[|areas| - 1].Contains(x, y)
  }

  /** getMinUncoveredPixel as written: x starts at 0 once and is never reset,
      and the inner loop runs while x < height. Row 0 is searched over
      columns 0 .. height-1; every later row starts with x already at
      height, so nothing else is looked at, and the width is never read.
      The result is the first of those pixels no area contains, or (-1, -1). */
  method GetMinUncoveredPixel(areas: seq<Area>, width: int, height: int) returns (rx: int, ry: int)
    ensures (rx == -1 && ry == -1) <==> forall x :: 0 <= x < height ==> AnyContains(areas, x, 0)
    ensures !(rx == -1 && ry == -1) ==>
      ry == 0 && 0 <= rx < height && !AnyContains(areas, rx, 0) &&
      forall x :: 0 <= x < rx ==> AnyContains(areas, x, 0)
  {
    var x := 0;
    var y := 0;
    while y < height
      invariant 0 <= x && 0 <= y
      invariant y == 0 ==> x == 0
      invariant y > 0 ==> x >= height
      invariant forall px :: 0 <= px < x && px < height ==> AnyContains(areas, px, 0)
    {
      while x < height
        invariant 0 <= x
        invariant y > 0 ==> x >= height
        invariant forall px :: 0 <= px < x && px < height ==> AnyContains(areas, px, 0)
      {
        var isCovered := false;
        var i := 0;
        while i < |areas|
          invariant 0 <= i <= |areas|
          invariant isCovered <==> AnyContains(areas[..i], x, y)
        {
          isCovered := isCovered || areas[i].Contains(x, y);
          assert areas[..i + 1][..i] == areas[..i];
          if isCovered {
            break;
          }
          i := i + 1;
        }
        if !isCovered {
          assert areas[..|areas|] == areas;
          return x, y;
        }
        SliceCovers(areas, i, x, y);
        x := x + 1;
      }
      y := y + 1;
    }
    return -1, -1;
  }

  /** A prefix of the list that contains a pixel means the list does. */
  lemma SliceCovers(areas: seq<Area>, i: int, x: int, y: int)
    requires 0 <= i < |areas| && AnyContains(areas[..i + 1], x, y)
    ensures AnyContains(areas, x, y)
  {
    var k :| 0 <= k < i + 1 && areas[..i + 1][k].Contains(x, y);
    assert areas[k].Contains(x, y);
  }

  /** The search the doc comment describes: the row-major first pixel of
      the width-by-height image that no area contains, or (-1, -1) when
      the areas cover the whole image. */
  method FindMinUncoveredPixel(areas: seq<Area>, width: int, height: int) returns (x: int, y: int)
    ensures (x == -1 && y == -1) <==>
      forall px, py :: 0 <= px < width && 0 <= py < height ==> AnyContains(areas, px, py)
    ensures !(x == -1 && y == -1) ==>
      0 <= x < width && 0 <= y < height && !AnyContains(areas, x, y) &&
      forall px, py :: 0 <= px < width && 0 <= py < height && Before(px, py, x, y) ==> AnyContains(areas, px, py)
  {
    var inArea := (px, py) => AnyContains(areas, px, py);
    x, y := Raster.FirstUncovered(inArea, width, height);
    if !(x == -1 && y == -1) {
      assert !inArea(x, y);
      assert !AnyContains(areas, x, y);
      forall px, py | 0 <= px < width && 0 <= py < height && Before(px, py, x, y)
        ensures AnyContains(areas, px, py)
      {
        assert inArea(px, py);
      }
    } else {
      forall px, py | 0 <= px < width && 0 <= py < height
        ensures AnyContains(areas, px, py)
      {
        assert inArea(px, py);
      }
    }
  }

  /** On a 2 by 2 image whose one area, (0, 0) of size 1 by 0, covers row 0
      only, the stub search reports (-1, -1) although pixel (0, 1) is
      covered by no area; the described search finds (0, 1). */
  method MissedPixel() returns (stubX: int, stubY: int, x: int, y: int)
    ensures stubX == -1 && stubY == -1
    ensures !AnyContains([Area(0, 0, 1, 0, [0, 0, 0, 0])], 0, 1)
    ensures x == 0 && y == 1
  {
    var areas := [Area(0, 0, 1, 0, [0, 0, 0, 0])];
    assert AnyContains(areas, 0, 0) && AnyContains(areas, 1, 0);
    stubX, stubY := GetMinUncoveredPixel(areas, 2, 2);
    assert !AnyContains(areas, 0, 1);
    x, y := FindMinUncoveredPixel(areas, 2, 2);
  }
}

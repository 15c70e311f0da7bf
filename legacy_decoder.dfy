/** The older decoder of cobi/decoding/decoder.go, on the areas of
    cobi/encoding/encoding.go. It differs from the newer one in that the size
    of a channel is accepted only when the channel's areas cover every pixel
    of it; a channel that leaves a gap aborts decoding before any plane is
    built. */
module LegacyDecoder {
  import opened Basics
  import opened Canvas
  import opened LegacyEncoder
  import Interpolation
  import Raster

  /** What decoding needs of an area: a non-negative origin and a non-empty
      size (the Go code indexes out of range otherwise). */
  predicate Decodable(a: Area)
  {
    0 <= a.X && 0 <= a.Y && 1 <= a.W && 1 <= a.H
  }

  /** The blocks GetInterpolatedArea produces, one per area, in list order. */
  function Patches(areas: seq<Area>): (ps: seq<Patch>)
    ensures |ps| == |areas|
    ensures forall i :: 0 <= i < |areas| ==> ps[i] == areas[i].AsPatch()
  {
    seq(|areas|, i requires 0 <= i < |areas| => areas[i].AsPatch())
  }

  /** The width the areas span: the largest X + W, and 0 for no areas. */
  function MaxRight(areas: seq<Area>): (m: int)
    ensures 0 <= m
  {
    if |areas| == 0 then 0
    else
      var m := MaxRight(areas[..|areas| - 1]);
      var a := areas[|areas| - 1];
      if m < a.X + a.W then a.X + a.W else m
  }

  /** The height the areas span: the largest Y + H, and 0 for no areas. */
  function MaxBottom(areas: seq<Area>): (m: int)
    ensures 0 <= m
  {
    if |areas| == 0 then 0
    else
      var m := MaxBottom(areas[..|areas| - 1]);
      var a := areas[|areas| - 1];
      if m < a.Y + a.H then a.Y + a.H else m
  }

  /** Every area ends within the extent the list spans. */
  lemma {:induction false} WithinExtent(areas: seq<Area>)
    ensures forall i :: 0 <= i < |areas| ==>
      areas[i].X + areas[i].W <= MaxRight(areas) && areas[i].Y + areas[i].H <= MaxBottom(areas)
  {
    if |areas| > 0 {
      var init := areas[..|areas| - 1];
      WithinExtent(init);
      assert forall i :: 0 <= i < |init| ==> init[i] == areas[i];
    }
  }

  /** A non-zero extent is the far edge of some area of the list. */
  lemma {:induction false} ExtentAttained(areas: seq<Area>)
    ensures MaxRight(areas) == 0 || exists i :: 0 <= i < |areas| && areas[i].X + areas[i].W == MaxRight(areas)
    ensures MaxBottom(areas) == 0 || exists i :: 0 <= i < |areas| && areas[i].Y + areas[i].H == MaxBottom(areas)
  {
    if |areas| > 0 {
      var init := areas[..|areas| - 1];
      var last := |areas| - 1;
      ExtentAttained(init);
      if MaxRight(areas) != 0 && MaxRight(areas) != areas[last].X + areas[last].W {
        var k :| 0 <= k < |init| && init[k].X + init[k].W == MaxRight(init);
        assert areas[k] == init[k];
      }
      if MaxBottom(areas) != 0 && MaxBottom(areas) != areas[last].Y + areas[last].H {
        var k :| 0 <= k < |init| && init[k].Y + init[k].H == MaxBottom(init);
        assert areas[k] == init[k];
      }
    }
  }

  /** Whether some area of the list contains pixel (x, y). */
  function ContainedBy(areas: seq<Area>, x: int, y: int): (b: bool)
    ensures b <==> Covered(areas, x, y)
  {
    if |areas| == 0 then false
    else
      ContainedBy(areas[..|areas| - 1], x, y) || areas[|areas| - 1].Contains(x, y)
  }

  /** Every pixel of the areas' own extent lies in some area. */
  ghost predicate Gapless(areas: seq<Area>)
  {
    forall x, y :: 0 <= x < MaxRight(areas) && 0 <= y < MaxBottom(areas) ==> Covered(areas, x, y)
  }

  /** getSizeOfChannel: the running maxima of X + W and Y + H from 0, then
      a row-major search for a pixel of that extent in no area; if there is
      one, the channel is rejected with (-1, -1). */
  method GetSizeOfChannel(areas: seq<Area>) returns (width: int, height: int, err: Option<DecodeError>)
    ensures err.None? <==> Gapless(areas)
    ensures err.None? ==> width == MaxRight(areas) && height == MaxBottom(areas)
    ensures err.Some? ==> err == Some(CoverageGap) && width == -1 && height == -1
  {
    width, height := 0, 0;
    var i := 0;
    while i < |areas|
      invariant 0 <= i <= |areas|
      invariant width == MaxRight(areas[..i]) && height == MaxBottom(areas[..i])
    {
      var area := areas[i];
      if width < area.X + area.W {
        width := area.X + area.W;
      }
      if height < area.Y + area.H {
        height := area.Y + area.H;
      }
      assert areas[..i + 1][..i] == areas[..i];
      assert MaxRight(areas[..i + 1]) == width && MaxBottom(areas[..i + 1]) == height;
      i := i + 1;
    }
    assert areas[..|areas|] == areas;
    var inArea := (px, py) => ContainedBy(areas, px, py);
    var x, y := Raster.FirstUncovered(inArea, width, height);
    if x != -1 || y != -1 {
      assert !inArea(x, y);
      return -1, -1, Some(CoverageGap);
    }
    forall px, py | 0 <= px < width && 0 <= py < height
      ensures Covered(areas, px, py)
    {
      assert inArea(px, py);
    }
    return width, height, None;
  }

  predicate SameWidths(areas: seq<seq<Area>>)
    requires |areas| == 4
  {
    MaxRight(areas[0]) == MaxRight(areas[1]) == MaxRight(areas[2]) == MaxRight(areas[3])
  }

  predicate SameHeights(areas: seq<seq<Area>>)
    requires |areas| == 4
  {
    MaxBottom(areas[0]) == MaxBottom(areas[1]) == MaxBottom(areas[2]) == MaxBottom(areas[3])
  }

  ghost predicate AllGapless(areas: seq<seq<Area>>)
    requires |areas| == 4
  {
    Gapless(areas[0]) && Gapless(areas[1]) && Gapless(areas[2]) && Gapless(areas[3])
  }

  /** getAndEnsureWidthHeight: a channel with a gap is reported first (R, G,
      B, A in turn), then a width mismatch, then a height mismatch; any
      error gives (-1, -1). */
  method GetAndEnsureWidthHeight(areas: seq<seq<Area>>) returns (width: int, height: int, err: Option<DecodeError>)
    requires |areas| == 4
    ensures err.None? <==> AllGapless(areas) && SameWidths(areas) && SameHeights(areas)
    ensures err == Some(CoverageGap) <==> !AllGapless(areas)
    ensures err == Some(WidthMismatch) <==> AllGapless(areas) && !SameWidths(areas)
    ensures err == Some(HeightMismatch) <==> AllGapless(areas) && SameWidths(areas) && !SameHeights(areas)
    ensures err.None? ==> width == MaxRight(areas[0]) && height == MaxBottom(areas[0])
    ensures err.Some? ==> width == -1 && height == -1
  {
    var widthR, heightR, errR := GetSizeOfChannel(areas[0]);
    if errR.Some? {
      return -1, -1, errR;
    }
    var widthG, heightG, errG := GetSizeOfChannel(areas[1]);
    if errG.Some? {
      return -1, -1, errG;
    }
    var widthB, heightB, errB := GetSizeOfChannel(areas[2]);
    if errB.Some? {
      return -1, -1, errB;
    }
    var widthA, heightA, errA := GetSizeOfChannel(areas[3]);
    if errA.Some? {
      return -1, -1, errA;
    }
    if widthR != widthG || widthG != widthB || widthB != widthA {
      return -1, -1, Some(WidthMismatch);
    }
    if heightR != heightG || heightG != heightB || heightB != heightA {
      return -1, -1, Some(HeightMismatch);
    }
    return widthR, heightR, None;
  }

  /** The plane is width by height and holds the areas pasted in order. */
  ghost predicate PaintedPlane(plane: array2<Byte>, areas: seq<Area>, width: int, height: int)
    reads plane
  {
    plane.Length0 == width && plane.Length1 == height &&
    forall x, y :: 0 <= x < width && 0 <= y < height ==> plane[x, y] == Painted(Patches(areas), x, y)
  }

  /** interpolateChannel: a width-by-height grid, zero where no area lies,
      with every area's block pasted at its offset in list order. */
  method InterpolateChannel(areas: seq<Area>, width: int, height: int) returns (grid: array2<Byte>)
    requires 0 <= width && 0 <= height
    requires forall i :: 0 <= i < |areas| ==>
      Decodable(areas[i]) && areas[i].X + areas[i].W <= width && areas[i].Y + areas[i].H <= height
    ensures PaintedPlane(grid, areas, width, height)
  {
    grid := Paint(Patches(areas), width, height);
  }

  /** Decode: fails exactly when a channel has a gap or the channels
      disagree in size, with the first error found; otherwise the image has
      the channels' common size, and plane c holds the areas of channel c
      pasted in order. */
  method Decode(areas: seq<seq<Area>>) returns (r: Result<Image, DecodeError>)
    requires |areas| == 4
    requires AllGapless(areas) && SameWidths(areas) && SameHeights(areas) ==>
      forall c, i :: 0 <= c < 4 && 0 <= i < |areas[c]| ==> Decodable(areas[c][i])
    ensures r.Failure? <==> !(AllGapless(areas) && SameWidths(areas) && SameHeights(areas))
    ensures r.Failure? ==>
      r.error == (if !AllGapless(areas) then CoverageGap else if SameWidths(areas) then HeightMismatch else WidthMismatch)
    ensures r.Success? ==>
      r.value.width == MaxRight(areas[0]) && r.value.height == MaxBottom(areas[0]) &&
      |r.value.planes| == 4 &&
      forall c :: 0 <= c < 4 ==> PaintedPlane(r.value.planes[c], areas[c], r.value.width, r.value.height)
  {
    var width, height, err := GetAndEnsureWidthHeight(areas);
    if err.Some? {
      return Failure(err.value);
    }
    WithinExtent(areas[0]);
    WithinExtent(areas[1]);
    WithinExtent(areas[2]);
    WithinExtent(areas[3]);
    var red := InterpolateChannel(areas[0], width, height);
    var green := InterpolateChannel(areas[1], width, height);
    var blue := InterpolateChannel(areas[2], width, height);
    var alpha := InterpolateChannel(areas[3], width, height);
    return Success(Image(width, height, [red, green, blue, alpha]));
  }

  // ---------------------------------------------------------------------
  // What the coverage check guarantees

  /** On a decoded plane of a gapless channel no pixel keeps the zero of
      the fresh grid by default: each shows the interpolation of the last
      area containing it. */
  lemma GaplessPainted(areas: seq<Area>, x: int, y: int) returns (i: int)
    requires Gapless(areas) && 0 <= x < MaxRight(areas) && 0 <= y < MaxBottom(areas)
    ensures 0 <= i < |areas| && areas[i].Contains(x, y)
    ensures forall j :: i < j < |areas| ==> !areas[j].Contains(x, y)
    ensures Painted(Patches(areas), x, y) ==
      Interpolation.Cell(areas[i].W, areas[i].H, areas[i].Values, x - areas[i].X, y - areas[i].Y)
  {
    assert Covered(areas, x, y);
    i := CoveredPaints(areas, x, y);
  }

  /** A pixel some area contains shows the interpolation of the last such area. */
  lemma CoveredPaints(areas: seq<Area>, x: int, y: int) returns (i: int)
    requires Covered(areas, x, y)
    ensures 0 <= i < |areas| && areas[i].Contains(x, y)
    ensures forall j :: i < j < |areas| ==> !areas[j].Contains(x, y)
    ensures Painted(Patches(areas), x, y) ==
      Interpolation.Cell(areas[i].W, areas[i].H, areas[i].Values, x - areas[i].X, y - areas[i].Y)
  {
    var k :| 0 <= k < |areas| && areas[k].Contains(x, y);
    i := LastContaining(areas, k, x, y);
    LastAreaPaints(areas, i, x, y);
  }

  /** The last area containing a pixel decides its decoded value. */
  lemma LastAreaPaints(areas: seq<Area>, i: int, x: int, y: int)
    requires 0 <= i < |areas| && areas[i].Contains(x, y)
    requires forall j :: i < j < |areas| ==> !areas[j].Contains(x, y)
    ensures Painted(Patches(areas), x, y) ==
      Interpolation.Cell(areas[i].W, areas[i].H, areas[i].Values, x - areas[i].X, y - areas[i].Y)
  {
    var ps := Patches(areas);
    forall j | i < j < |ps|
      ensures !Covers(ps[j], x, y)
    {
      assert !areas[j].Contains(x, y);
    }
    PaintedLastWins(ps, i, x, y);
  }

  /** The index of the last area containing (x, y), given one that does. */
  lemma {:induction false} LastContaining(areas: seq<Area>, k: int, x: int, y: int) returns (i: int)
    requires 0 <= k < |areas| && areas[k].Contains(x, y)
    ensures k <= i < |areas| && areas[i].Contains(x, y)
    ensures forall j :: i < j < |areas| ==> !areas[j].Contains(x, y)
    decreases |areas| - k
  {
    if exists j :: k < j < |areas| && areas[j].Contains(x, y) {
      var j :| k < j < |areas| && areas[j].Contains(x, y);
      i := LastContaining(areas, j, x, y);
    } else {
      i := k;
    }
  }

  // ---------------------------------------------------------------------
  // Decoding what the fixed-size encoder produced

  /** A tiling of a width-by-height image spans exactly that size and has
      no gap, so the coverage check accepts it. */
  lemma TilingAccepted(areas: seq<Area>, width: int, height: int)
    requires 1 <= width && 1 <= height && Tiling(areas, width, height)
    ensures MaxRight(areas) == width && MaxBottom(areas) == height
    ensures Gapless(areas)
  {
    WithinExtent(areas);
    ExtentAttained(areas);
    assert Covered(areas, width - 1, height - 1);
    var i :| 0 <= i < |areas| && areas[i].Contains(width - 1, height - 1);
    assert Inside(areas[i], width, height);
  }

  /** Disjoint areas give disjoint blocks. */
  lemma PatchesDisjoint(areas: seq<Area>)
    requires PairwiseDisjoint(areas)
    ensures Disjoint(Patches(areas))
  {
    var ps := Patches(areas);
    forall i, j, px, py | 0 <= i < j < |ps| && Covers(ps[i], px, py)
      ensures !Covers(ps[j], px, py)
    {
      assert areas[i].Contains(px, py);
    }
  }

  /** The plane is width by height and shows, at the four corner pixels of
      `a`, the channel's samples there. */
  ghost predicate KeepsCorners(plane: array2<Byte>, values: seq<seq<Byte>>, width: int, height: int, a: Area)
    requires IsChannel(values, width, height)
    reads plane
  {
    plane.Length0 == width && plane.Length1 == height && SampledCorners(a, values, width, height) &&
    plane[a.X, a.Y] == values[a.X][a.Y] &&
    plane[a.X + a.W - 1, a.Y] == values[a.X + a.W - 1][a.Y] &&
    plane[a.X, a.Y + a.H - 1] == values[a.X][a.Y + a.H - 1] &&
    plane[a.X + a.W - 1, a.Y + a.H - 1] == values[a.X + a.W - 1][a.Y + a.H - 1]
  }

  /** A plane holding a pasted tiling whose areas carry their corner
      samples keeps every area's corner samples. */
  lemma PlaneKeepsCorners(plane: array2<Byte>, values: seq<seq<Byte>>, width: int, height: int, areas: seq<Area>)
    requires IsChannel(values, width, height) && Tiling(areas, width, height)
    requires forall k :: 0 <= k < |areas| ==> SampledCorners(areas[k], values, width, height)
    requires PaintedPlane(plane, areas, width, height)
    ensures forall i :: 0 <= i < |areas| ==> KeepsCorners(plane, values, width, height, areas[i])
  {
    PatchesDisjoint(areas);
    forall i | 0 <= i < |areas|
      ensures KeepsCorners(plane, values, width, height, areas[i])
    {
      var a := areas[i];
      assert SampledCorners(a, values, width, height);
      assert Interpolation.ConsistentCorners(a.W, a.H, a.Values);
      PaintedCorners(Patches(areas), i);
    }
  }

  /** The fixed-size Encode followed by this Decode: the coverage check
      passes, decoding succeeds with the original size, and every plane
      shows the original samples at the corner pixels of every area of its
      channel. */
  method EncodeThenDecode(width: int, height: int, channels: seq<seq<seq<Byte>>>)
    returns (areas: seq<seq<Area>>, r: Result<Image, DecodeError>)
    requires 1 <= width && 1 <= height && |channels| == 4
    requires forall c :: 0 <= c < 4 ==> IsChannel(channels[c], width, height)
    ensures |areas| == 4 && r.Success?
    ensures r.value.width == width && r.value.height == height && |r.value.planes| == 4
    ensures forall c, i :: 0 <= c < 4 && 0 <= i < |areas[c]| ==>
      KeepsCorners(r.value.planes[c], channels[c], width, height, areas[c][i])
  {
    areas := LegacyEncoder.Encode(width, height, channels);
    forall c | 0 <= c < 4
      ensures MaxRight(areas[c]) == width && MaxBottom(areas[c]) == height && Gapless(areas[c])
    {
      TilingAccepted(areas[c], width, height);
    }
    r := Decode(areas);
    forall c | 0 <= c < 4
      ensures forall i :: 0 <= i < |areas[c]| ==> KeepsCorners(r.value.planes[c], channels[c], width, height, areas[c][i])
    {
      PlaneKeepsCorners(r.value.planes[c], channels[c], width, height, areas[c]);
    }
  }

  /** A channel whose two areas leave pixel (1, 0) of their 3 by 1 extent
      uncovered makes Decode fail with the coverage error. */
  method GapRejected() returns (r: Result<Image, DecodeError>)
    ensures r == Failure(CoverageGap)
  {
    var channel := [Area(0, 0, 1, 1, [0, 0, 0, 0]), Area(2, 0, 1, 1, [0, 0, 0, 0])];
    assert MaxRight(channel) == 3 && MaxBottom(channel) == 1;
    assert !Covered(channel, 1, 0);
    r := Decode([channel, channel, channel, channel]);
  }
}

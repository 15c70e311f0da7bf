/** The decoder of cobi/encoding/decoder.go: the size of each channel is the
    extent of its areas, the four channels must agree on it (widths checked
    before heights), and each plane is a zeroed grid onto which every area's
    interpolated block is pasted in list order. */
module Decoder {
  import opened Basics
  import opened Canvas
  import opened Encoder
  import Interpolation

  /** What decoding needs of an area: a non-negative origin and a non-empty
      size (the Go code indexes out of range otherwise). */
  predicate Decodable(a: Area)
  {
    0 <= a.X && 0 <= a.Y && 1 <= a.W && 1 <= a.H
  }

  /** The blocks GetInterpolatedArea produces, one per area, in list order. */
  function Patches(areas: seq<Area>): (ps: seq<Patch>)
    ensures |ps| == |areas|
    ensures forall i :: 0 <= i < |areas| ==> ps[i] == areas[i].AsPatch()
  {
    seq(|areas|, i requires 0 <= i < |areas| => areas[i].AsPatch())
  }

  /** The width the areas span: the largest X + W, and 0 for no areas. */
  function MaxRight(areas: seq<Area>): (m: int)
    ensures 0 <= m
  {
    if |areas| == 0 then 0
    else
      var m := MaxRight(areas[..|areas| - 1]);
      var a := areas[|areas| - 1];
      if m < a.X + a.W then a.X + a.W else m
  }

  /** The height the areas span: the largest Y + H, and 0 for no areas. */
  function MaxBottom(areas: seq<Area>): (m: int)
    ensures 0 <= m
  {
    if |areas| == 0 then 0
    else
      var m := MaxBottom(areas[..|areas| - 1]);
      var a := areas[|areas| - 1];
      if m < a.Y + a.H then a.Y + a.H else m
  }

  /** Every area ends within the extent the list spans. */
  lemma {:induction false} WithinExtent(areas: seq<Area>)
    ensures forall i :: 0 <= i < |areas| ==>
      areas[i].X + areas[i].W <= MaxRight(areas) && areas[i].Y + areas[i].H <= MaxBottom(areas)
  {
    if |areas| > 0 {
      var init := areas[..|areas| - 1];
      WithinExtent(init);
      assert forall i :: 0 <= i < |init| ==> init[i] == areas[i];
    }
  }

  /** A non-zero extent is the far edge of some area of the list. */
  lemma {:induction false} ExtentAttained(areas: seq<Area>)
    ensures MaxRight(areas) == 0 || exists i :: 0 <= i < |areas| && areas[i].X + areas[i].W == MaxRight(areas)
    ensures MaxBottom(areas) == 0 || exists i :: 0 <= i < |areas| && areas[i].Y + areas[i].H == MaxBottom(areas)
  {
    if |areas| > 0 {
      var init := areas[..|areas| - 1];
      var last := |areas| - 1;
      ExtentAttained(init);
      if MaxRight(areas) != 0 && MaxRight(areas) != areas[last].X + areas[last].W {
        var k :| 0 <= k < |init| && init[k].X + init[k].W == MaxRight(init);
        assert areas[k] == init[k];
      }
      if MaxBottom(areas) != 0 && MaxBottom(areas) != areas[last].Y + areas[last].H {
        var k :| 0 <= k < |init| && init[k].Y + init[k].H == MaxBottom(init);
        assert areas[k] == init[k];
      }
    }
  }

  /** One more area moves each extent up to its own edge, if that lies further. */
  lemma MaxStep(areas: seq<Area>, i: int)
    requires 0 <= i < |areas|
    ensures MaxRight(areas[..i + 1]) ==
      (if MaxRight(areas[..i]) < areas[i].X + areas[i].W then areas[i].X + areas[i].W else MaxRight(areas[..i]))
    ensures MaxBottom(areas[..i + 1]) ==
      (if MaxBottom(areas[..i]) < areas[i].Y + areas[i].H then areas[i].Y + areas[i].H else MaxBottom(areas[..i]))
  {
    assert areas[..i + 1][..i] == areas[..i];
  }

  /** getSizeOfChannel: the running maxima of X + W and Y + H from 0. The
      coverage check is commented out, so there is never an error. */
  method GetSizeOfChannel(areas: seq<Area>) returns (width: int, height: int, err: Option<DecodeError>)
    ensures width == MaxRight(areas) && height == MaxBottom(areas)
    ensures err == None
  {
    width, height := 0, 0;
    var i := 0;
    while i < |areas|
      invariant 0 <= i <= |areas|
      invariant width == MaxRight(areas[..i]) && height == MaxBottom(areas[..i])
    {
      var area := areas[i];
      if width < area.X + area.W {
        width := area.X + area.W;
      }
      if height < area.Y + area.H {
        height := area.Y + area.H;
      }
      MaxStep(areas, i);
      i := i + 1;
    }
    assert areas[..|areas|] == areas;
    err := None;
  }

  predicate SameWidths(areas: seq<seq<Area>>)
    requires |areas| == 4
  {
    MaxRight(areas[0]) == MaxRight(areas[1]) == MaxRight(areas[2]) == MaxRight(areas[3])
  }

  predicate SameHeights(areas: seq<seq<Area>>)
    requires |areas| == 4
  {
    MaxBottom(areas[0]) == MaxBottom(areas[1]) == MaxBottom(areas[2]) == MaxBottom(areas[3])
  }

  /** getAndEnsureWidthHeight: the common size of the channels R, G, B, A;
      a width mismatch is reported before a height mismatch, and either
      gives (-1, -1). */
  method GetAndEnsureWidthHeight(areas: seq<seq<Area>>) returns (width: int, height: int, err: Option<DecodeError>)
    requires |areas| == 4
    ensures err.None? <==> SameWidths(areas) && SameHeights(areas)
    ensures err == Some(WidthMismatch) <==> !SameWidths(areas)
    ensures err == Some(HeightMismatch) <==> SameWidths(areas) && !SameHeights(areas)
    ensures err.None? ==> width == MaxRight(areas[0]) && height == MaxBottom(areas[0])
    ensures err.Some? ==> width == -1 && height == -1
  {
    var widthR, heightR, errR := GetSizeOfChannel(areas[0]);
    if errR.Some? {
      return -1, -1, errR;
    }
    var widthG, heightG, errG := GetSizeOfChannel(areas[1]);
    if errG.Some? {
      return -1, -1, errG;
    }
    var widthB, heightB, errB := GetSizeOfChannel(areas[2]);
    if errB.Some? {
      return -1, -1, errB;
    }
    var widthA, heightA, errA := GetSizeOfChannel(areas[3]);
    if errA.Some? {
      return -1, -1, errA;
    }
    if widthR != widthG || widthG != widthB || widthB != widthA {
      return -1, -1, Some(WidthMismatch);
    }
    if heightR != heightG || heightG != heightB || heightB != heightA {
      return -1, -1, Some(HeightMismatch);
    }
    return widthR, heightR, None;
  }

  /** interpolateChannel: a width-by-height grid, zero where no area lies,
      with every area's block pasted at its offset in list order. */
  method InterpolateChannel(areas: seq<Area>, width: int, height: int) returns (grid: array2<Byte>)
    requires 0 <= width && 0 <= height
    requires forall i :: 0 <= i < |areas| ==>
      Decodable(areas[i]) && areas[i].X + areas[i].W <= width && areas[i].Y + areas[i].H <= height
    ensures PaintedPlane(grid, areas, width, height)
  {
    grid := Paint(Patches(areas), width, height);
  }

  /** The plane is width by height and holds the areas pasted in order. */
  ghost predicate PaintedPlane(plane: array2<Byte>, areas: seq<Area>, width: int, height: int)
    reads plane
  {
    plane.Length0 == width && plane.Length1 == height &&
    forall x, y :: 0 <= x < width && 0 <= y < height ==> plane[x, y] == Painted(Patches(areas), x, y)
  }

  /** Decode: fails exactly when the channels disagree in size; otherwise
      the image has the channels' common size, and plane c holds the areas
      of channel c pasted in order. Every write lands inside its plane,
      because the size is the areas' extent. */
  method Decode(areas: seq<seq<Area>>) returns (r: Result<Image, DecodeError>)
    requires |areas| == 4
    requires SameWidths(areas) && SameHeights(areas) ==>
      forall c, i :: 0 <= c < 4 && 0 <= i < |areas[c]| ==> Decodable(areas[c][i])
    ensures r.Failure? <==> !(SameWidths(areas) && SameHeights(areas))
    ensures r.Failure? ==> r.error == if SameWidths(areas) then HeightMismatch else WidthMismatch
    ensures r.Success? ==>
      r.value.width == MaxRight(areas[0]) && r.value.height == MaxBottom(areas[0]) &&
      |r.value.planes| == 4 &&
      forall c :: 0 <= c < 4 ==> PaintedPlane(r.value.planes[c], areas[c], r.value.width, r.value.height)
  {
    var width, height, err := GetAndEnsureWidthHeight(areas);
    if err.Some? {
      return Failure(err.value);
    }
    WithinExtent(areas[0]);
    WithinExtent(areas[1]);
    WithinExtent(areas[2]);
    WithinExtent(areas[3]);
    var red := InterpolateChannel(areas[0], width, height);
    var green := InterpolateChannel(areas[1], width, height);
    var blue := InterpolateChannel(areas[2], width, height);
    var alpha := InterpolateChannel(areas[3], width, height);
    return Success(Image(width, height, [red, green, blue, alpha]));
  }

  // ---------------------------------------------------------------------
  // Decoding what the encoder produced

  /** A tiling of a width-by-height image spans exactly that size, so the
      decoder recovers the size from the areas alone. */
  lemma SizeRecovered(areas: seq<Area>, width: int, height: int)
    requires 1 <= width && 1 <= height && Tiling(areas, width, height)
    ensures MaxRight(areas) == width && MaxBottom(areas) == height
  {
    WithinExtent(areas);
    ExtentAttained(areas);
    assert Covered(areas, width - 1, height - 1);
    var i :| 0 <= i < |areas| && areas[i].Contains(width - 1, height - 1);
    assert Inside(areas[i], width, height);
  }

  /** Disjoint areas give disjoint blocks. */
  lemma PatchesDisjoint(areas: seq<Area>)
    requires PairwiseDisjoint(areas)
    ensures Disjoint(Patches(areas))
  {
    var ps := Patches(areas);
    forall i, j, px, py | 0 <= i < j < |ps| && Covers(ps[i], px, py)
      ensures !Covers(ps[j], px, py)
    {
      assert areas[i].Contains(px, py);
    }
  }

  /** Decoding a tiling whose areas carry their corner samples gives back
      each area's four values at its four corner pixels. */
  lemma CornersRoundTrip(values: seq<seq<Byte>>, width: int, height: int, areas: seq<Area>, i: int)
    requires IsChannel(values, width, height) && Tiling(areas, width, height)
    requires forall k :: 0 <= k < |areas| ==> SampledCorners(areas[k], values, width, height)
    requires 0 <= i < |areas|
    ensures var a := areas[i];
      Painted(Patches(areas), a.X, a.Y) == a.Values[0] &&
      Painted(Patches(areas), a.X + a.W - 1, a.Y) == a.Values[1] &&
      Painted(Patches(areas), a.X, a.Y + a.H - 1) == a.Values[2] &&
      Painted(Patches(areas), a.X + a.W - 1, a.Y + a.H - 1) == a.Values[3]
  {
    var a := areas[i];
    PatchesDisjoint(areas);
    assert SampledCorners(a, values, width, height);
    assert Interpolation.ConsistentCorners(a.W, a.H, a.Values);
    PaintedCorners(Patches(areas), i);
  }

  /** The plane is width by height and shows, at the four corner pixels of
      `a`, the channel's samples there. */
  ghost predicate KeepsCorners(plane: array2<Byte>, values: seq<seq<Byte>>, width: int, height: int, a: Area)
    requires IsChannel(values, width, height)
    reads plane
  {
    plane.Length0 == width && plane.Length1 == height && SampledCorners(a, values, width, height) &&
    plane[a.X, a.Y] == values[a.X][a.Y] &&
    plane[a.X + a.W - 1, a.Y] == values[a.X + a.W - 1][a.Y] &&
    plane[a.X, a.Y + a.H - 1] == values[a.X][a.Y + a.H - 1] &&
    plane[a.X + a.W - 1, a.Y + a.H - 1] == values[a.X + a.W - 1][a.Y + a.H - 1]
  }

  /** A plane holding the pasted tiling keeps every area's corner samples. */
  lemma PlaneKeepsCorners(plane: array2<Byte>, values: seq<seq<Byte>>, width: int, height: int, areas: seq<Area>)
    requires IsChannel(values, width, height) && Tiling(areas, width, height)
    requires forall k :: 0 <= k < |areas| ==> SampledCorners(areas[k], values, width, height)
    requires PaintedPlane(plane, areas, width, height)
    ensures forall i :: 0 <= i < |areas| ==> KeepsCorners(plane, values, width, height, areas[i])
  {
    forall i | 0 <= i < |areas|
      ensures KeepsCorners(plane, values, width, height, areas[i])
    {
      CornersRoundTrip(values, width, height, areas, i);
      assert SampledCorners(areas[i], values, width, height);
    }
  }

  /** Encode followed by Decode: decoding succeeds with the original size,
      and every plane shows the original samples at the corner pixels of
      every area of its channel. */
  method EncodeThenDecode(width: int, height: int, channels: seq<seq<seq<Byte>>>, accept: seq<Acceptance>)
    returns (areas: seq<seq<Area>>, r: Result<Image, DecodeError>)
    requires 1 <= width && 1 <= height && |channels| == 4 && |accept| == 4
    requires forall c :: 0 <= c < 4 ==> IsChannel(channels[c], width, height)
    ensures |areas| == 4 && r.Success?
    ensures r.value.width == width && r.value.height == height && |r.value.planes| == 4
    ensures forall c, i :: 0 <= c < 4 && 0 <= i < |areas[c]| ==>
      KeepsCorners(r.value.planes[c], channels[c], width, height, areas[c][i])
  {
    areas := Encode(width, height, channels, accept);
    forall c | 0 <= c < 4
      ensures MaxRight(areas[c]) == width && MaxBottom(areas[c]) == height
    {
      SizeRecovered(areas[c], width, height);
    }
    r := Decode(areas);
    forall c | 0 <= c < 4
      ensures forall i :: 0 <= i < |areas[c]| ==> KeepsCorners(r.value.planes[c], channels[c], width, height, areas[c][i])
    {
      PlaneKeepsCorners(r.value.planes[c], channels[c], width, height, areas[c]);
    }
  }

  // ---------------------------------------------------------------------
  // The decoding test's fixture

  /** Three areas tiling an 8 by 5 image: 5 by 5 on the left, 3 by 3 and
      3 by 2 stacked on the right. */
  function TestAreas(): seq<Area>
  {
    [Area(0, 0, 5, 5, [0, 10, 5, 20]), Area(5, 0, 3, 3, [12, 14, 18, 10]), Area(5, 3, 3, 2, [19, 19, 20, 20])]
  }

  /** Decoding the fixture in all four channels succeeds with an 8 by 5
      image whose four planes are equal. */
  method DecodeTestFixture() returns (r: Result<Image, DecodeError>)
    ensures r.Success? && r.value.width == 8 && r.value.height == 5 && |r.value.planes| == 4
    ensures forall c :: 0 <= c < 4 ==> r.value.planes[c].Length0 == 8 && r.value.planes[c].Length1 == 5
    ensures forall c, x, y :: 0 <= c < 4 && 0 <= x < 8 && 0 <= y < 5 ==>
      r.value.planes[c][x, y] == r.value.planes[0][x, y]
  {
    var areas := TestAreas();
    var first := [areas[0]];
    assert first[..0] == [];
    assert MaxRight(first) == 5 && MaxBottom(first) == 5;
    assert areas[..2][..1] == first;
    assert MaxRight(areas[..2]) == 8 && MaxBottom(areas[..2]) == 5;
    assert MaxRight(areas) == 8 && MaxBottom(areas) == 5;
    r := Decode([areas, areas, areas, areas]);
  }

  /** The cells of the fixture where the code and the test's expected grid
      agree: the top rows of the 5 by 5 and the 3 by 3 area. */
  lemma TestFixtureAgrees()
    ensures Painted(Patches(TestAreas()), 0, 0) == 0
    ensures Painted(Patches(TestAreas()), 1, 0) == 2 && Painted(Patches(TestAreas()), 4, 0) == 10
    ensures Painted(Patches(TestAreas()), 6, 0) == 13
  {
  }

  /** (1, 3): column 1 of the 5 by 5 area runs from 2 to 8, and the
      truncated step 2 + 3 * 6 / 4 is 6 (the test expects 7). */
  lemma FixtureCell13()
    ensures Painted(Patches(TestAreas()), 1, 3) == 6
  {
    assert Interpolation.RowPhase(5, 5, [0, 10, 5, 20], 1, 0) == 2;
    assert Interpolation.RowPhase(5, 5, [0, 10, 5, 20], 1, 4) == 8;
    assert Interpolation.Step(2, 8, 3, 5) == 6;
  }

  /** (1, 4): the bottom row of the 5 by 5 area runs from 5 to 20, and the
      truncated step 5 + 15 / 4 is 8 (the test expects 9). */
  lemma FixtureCell14()
    ensures Painted(Patches(TestAreas()), 1, 4) == 8
  {
    assert Interpolation.Step(5, 20, 1, 5) == 8;
  }

  /** (6, 2): the bottom row of the 3 by 3 area runs from 18 down to 10; the
      byte difference wraps to 248, so the middle is 18 + 124 = 142 (the
      test expects 14). */
  lemma FixtureCell62()
    ensures Painted(Patches(TestAreas()), 6, 2) == 142
  {
    assert Interpolation.Step(18, 10, 1, 3) == 142;
  }

  /** (6, 1): column 6 runs from 13 to the wrapped 142, so its middle is
      13 + 129 / 2 = 77 (the test expects 13). */
  lemma FixtureCell61()
    ensures Painted(Patches(TestAreas()), 6, 1) == 77
  {
    assert Interpolation.RowPhase(3, 3, [12, 14, 18, 10], 1, 0) == 13;
    assert Interpolation.RowPhase(3, 3, [12, 14, 18, 10], 1, 2) == 142;
    assert Interpolation.Step(13, 142, 1, 3) == 77;
  }

  /** (7, 1): column 7 runs from 14 down to 10; the byte difference wraps
      to 252, so its middle is 14 + 126 = 140 (the test expects 12). */
  lemma FixtureCell71()
    ensures Painted(Patches(TestAreas()), 7, 1) == 140
  {
    assert Interpolation.RowPhase(3, 3, [12, 14, 18, 10], 2, 0) == 14;
    assert Interpolation.RowPhase(3, 3, [12, 14, 18, 10], 2, 2) == 10;
    assert Interpolation.Step(14, 10, 1, 3) == 140;
  }

  /** Where the fixture's expected grid and the code part ways: five cells,
      (1, 3), (1, 4), (6, 1), (6, 2) and (7, 1), where the code gives 6, 8,
      77, 142 and 140 and the test expects 7, 9, 13, 14 and 12; the top
      rows agree. */
  lemma TestFixtureCells()
    ensures Painted(Patches(TestAreas()), 0, 0) == 0
    ensures Painted(Patches(TestAreas()), 1, 0) == 2 && Painted(Patches(TestAreas()), 4, 0) == 10
    ensures Painted(Patches(TestAreas()), 6, 0) == 13
    ensures Painted(Patches(TestAreas()), 1, 3) == 6 && Painted(Patches(TestAreas()), 1, 4) == 8
    ensures Painted(Patches(TestAreas()), 6, 1) == 77 && Painted(Patches(TestAreas()), 6, 2) == 142
    ensures Painted(Patches(TestAreas()), 7, 1) == 140
  {
    TestFixtureAgrees();
    FixtureCell13();
    FixtureCell14();
    FixtureCell61();
    FixtureCell62();
    FixtureCell71();
  }
}

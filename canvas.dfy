/** The pasting step shared by both decoders (interpolateChannel of
    cobi/encoding/decoder.go and of cobi/decoding/decoder.go): start from a
    zeroed width-by-height grid and, area by area in list order, paste the
    area's interpolated block at its position, so that a later area
    overwrites an earlier one where they overlap. */
module Canvas {
  import opened Basics
  import opened Interpolation

  /** The part of an encoded area the decoder uses: its position, its size
      and its four corner samples. */
  datatype Patch = Patch(x: int, y: int, w: int, h: int, corners: Quad)

  predicate Covers(p: Patch, px: int, py: int)
  {
    p.x <= px < p.x + p.w && p.y <= py < p.y + p.h
  }

  /** What the decoder demands of an area: a non-empty block inside the grid
      (Go indexes out of range otherwise). */
  predicate Fits(p: Patch, width: int, height: int)
  {
    1 <= p.w && 1 <= p.h && 0 <= p.x && p.x + p.w <= width && 0 <= p.y && p.y + p.h <= height
  }

  /** The value pixel (px, py) holds after pasting `ps` in order: the
      interpolated value of the last patch covering it, or 0 if none does. */
  function Painted(ps: seq<Patch>, px: int, py: int): Byte
  {
    if |ps| == 0 then 0
    else
      var p := ps[|ps| - 1];
      if Covers(p, px, py) then Cell(p.w, p.h, p.corners, px - p.x, py - p.y)
      else Painted(ps[..|ps| - 1], px, py)
  }

  /** The decoders' errors: the four channels disagree in width, or in
      height, or (older decoder only) the areas leave a pixel uncovered. */
  datatype DecodeError = WidthMismatch | HeightMismatch | CoverageGap

  /** A decoded image: its size and the planes R, G, B, A, each indexed [x, y]. */
  datatype Image = Image(width: int, height: int, planes: seq<array2<Byte>>)

  /** No two patches share a pixel. */
  ghost predicate Disjoint(ps: seq<Patch>)
  {
    forall i, j, px, py :: 0 <= i < j < |ps| && Covers(ps[i], px, py) ==> !Covers(ps[j], px, py)
  }

  /** interpolateChannel: a fresh grid holding Painted(ps, x, y) at every pixel. */
  method Paint(ps: seq<Patch>, width: int, height: int) returns (grid: array2<Byte>)
    requires 0 <= width && 0 <= height
    requires forall i :: 0 <= i < |ps| ==> Fits(ps[i], width, height)
    ensures fresh(grid) && grid.Length0 == width && grid.Length1 == height
    ensures forall x, y :: 0 <= x < width && 0 <= y < height ==> grid[x, y] == Painted(ps, x, y)
  {
    grid := new Byte[width, height]((_, _) => 0);
    var i := 0;
    while i < |ps|
      invariant 0 <= i <= |ps|
      invariant fresh(grid)
      invariant forall x, y :: 0 <= x < width && 0 <= y < height ==> grid[x, y] == Painted(ps[..i], x, y)
    {
      var p := ps[i];
      var block := Interpolate(p.w, p.h, p.corners);
      Paste(grid, block, p.x, p.y);
      assert ps[..i + 1][..i] == ps[..i];
      i := i + 1;
    }
    assert ps[..|ps|] == ps;
  }

  /** The two loops over one area: x outer, y inner, copying the block to
      its position and leaving every other cell alone. */
  method Paste(grid: array2<Byte>, block: array2<Byte>, x0: int, y0: int)
    requires grid != block
    requires 0 <= x0 && x0 + block.Length0 <= grid.Length0
    requires 0 <= y0 && y0 + block.Length1 <= grid.Length1
    modifies grid
    ensures forall x, y :: 0 <= x < grid.Length0 && 0 <= y < grid.Length1 ==>
      grid[x, y] == if x0 <= x < x0 + block.Length0 && y0 <= y < y0 + block.Length1
                    then block[x - x0, y - y0] else old(grid[x, y])
  {
    var x := 0;
    while x < block.Length0
      invariant 0 <= x <= block.Length0
      invariant forall px, py :: 0 <= px < grid.Length0 && 0 <= py < grid.Length1 ==>
        grid[px, py] == if x0 <= px < x0 + x && y0 <= py < y0 + block.Length1
                        then block[px - x0, py - y0] else old(grid[px, py])
    {
      var y := 0;
      while y < block.Length1
        invariant 0 <= y <= block.Length1
        invariant forall px, py :: 0 <= px < grid.Length0 && 0 <= py < grid.Length1 ==>
          grid[px, py] == if (x0 <= px < x0 + x && y0 <= py < y0 + block.Length1) || (px == x0 + x && y0 <= py < y0 + y)
                          then block[px - x0, py - y0] else old(grid[px, py])
      {
        grid[x + x0, y + y0] := block[x, y];
        y := y + 1;
      }
      x := x + 1;
    }
  }

  // ---------------------------------------------------------------------
  // What the pasted grid holds

  /** A pixel no patch covers keeps the initial 0. */
  lemma {:induction false} PaintedUncovered(ps: seq<Patch>, px: int, py: int)
    requires forall i :: 0 <= i < |ps| ==> !Covers(ps[i], px, py)
    ensures Painted(ps, px, py) == 0
  {
    if |ps| > 0 {
      PaintedUncovered(ps[..|ps| - 1], px, py);
    }
  }

  /** The last patch covering a pixel decides its value. */
  lemma {:induction false} PaintedLastWins(ps: seq<Patch>, i: int, px: int, py: int)
    requires 0 <= i < |ps| && Covers(ps[i], px, py)
    requires forall j :: i < j < |ps| ==> !Covers(ps[j], px, py)
    ensures Painted(ps, px, py) == Cell(ps[i].w, ps[i].h, ps[i].corners, px - ps[i].x, py - ps[i].y)
  {
    if i < |ps| - 1 {
      PaintedLastWins(ps[..|ps| - 1], i, px, py);
    }
  }

  /** With disjoint patches, a pixel shows the interpolation of the one
      patch that covers it. */
  lemma PaintedOwner(ps: seq<Patch>, i: int, px: int, py: int)
    requires Disjoint(ps) && 0 <= i < |ps| && Covers(ps[i], px, py)
    ensures Painted(ps, px, py) == Cell(ps[i].w, ps[i].h, ps[i].corners, px - ps[i].x, py - ps[i].y)
  {
    PaintedLastWins(ps, i, px, py);
  }

  /** With disjoint patches whose corner samples agree where corners
      coincide, each patch's four corner pixels show its corner samples. */
  lemma PaintedCorners(ps: seq<Patch>, i: int)
    requires Disjoint(ps) && 0 <= i < |ps| && 1 <= ps[i].w && 1 <= ps[i].h
    requires ConsistentCorners(ps[i].w, ps[i].h, ps[i].corners)
    ensures var p := ps[i];
      Painted(ps, p.x, p.y) == p.corners[0] &&
      Painted(ps, p.x + p.w - 1, p.y) == p.corners[1] &&
      Painted(ps, p.x, p.y + p.h - 1) == p.corners[2] &&
      Painted(ps, p.x + p.w - 1, p.y + p.h - 1) == p.corners[3]
  {
    var p := ps[i];
    CornersReproduced(p.w, p.h, p.corners);
    PaintedOwner(ps, i, p.x, p.y);
    PaintedOwner(ps, i, p.x + p.w - 1, p.y);
    PaintedOwner(ps, i, p.x, p.y + p.h - 1);
    PaintedOwner(ps, i, p.x + p.w - 1, p.y + p.h - 1);
  }
}

/** Fixed-size rectangular slices over a tile grid: the generator of the encoder configuration,
    the pass that derives slice parameters from its list, and the exact cover. */
module SliceGrid {
  import opened Arith

  // ---- tiles ----

  /** Tile boundaries in CTUs: 0, then strictly increasing up to the picture size. */
  ghost predicate ValidBoundaries(bd: seq<nat>) {
    |bd| >= 2 && bd[0] == 0 && forall i, j :: 0 <= i < j < |bd| ==> bd[i] < bd[j]
  }

  datatype Grid = Grid(colBd: seq<nat>, rowBd: seq<nat>) {
    ghost predicate Valid() {
      ValidBoundaries(colBd) && ValidBoundaries(rowBd)
    }

    function Cols(): nat requires |colBd| > 0 { |colBd| - 1 }
    function Rows(): nat requires |rowBd| > 0 { |rowBd| - 1 }
    function PicWidth(): nat requires |colBd| > 0 { colBd[|colBd| - 1] }
    function PicHeight(): nat requires |rowBd| > 0 { rowBd[|rowBd| - 1] }
  }

  /** The tile that holds a CTU coordinate. */
  function TileOf(bd: seq<nat>, c: nat): (t: nat)
    requires ValidBoundaries(bd) && c < bd[|bd| - 1]
    ensures t + 1 < |bd| && bd[t] <= c < bd[t + 1]
  {
    TileBefore(bd, c, |bd| - 1)
  }

  function TileBefore(bd: seq<nat>, c: nat, n: nat): (t: nat)
    requires ValidBoundaries(bd) && 0 < n < |bd| && c < bd[n]
    ensures t < n && bd[t] <= c < bd[t + 1]
  {
    if bd[n - 1] <= c then n - 1 else TileBefore(bd, c, n - 1)
  }

  lemma Monotone(bd: seq<nat>, i: nat, j: nat)
    requires ValidBoundaries(bd) && i < |bd| && j < |bd|
    ensures i <= j ==> bd[i] <= bd[j]
  {
  }

  lemma TileIsUnique(bd: seq<nat>, c: nat, t: nat)
    requires ValidBoundaries(bd) && t + 1 < |bd| && bd[t] <= c < bd[t + 1]
    ensures c < bd[|bd| - 1] && TileOf(bd, c) == t
  {
    Monotone(bd, t + 1, |bd| - 1);
    var u := TileOf(bd, c);
    Monotone(bd, u + 1, t);
    Monotone(bd, t + 1, u);
  }

  /** The mapping loop of PPS::initTiles. */
  method CtuToTile(bd: seq<nat>) returns (tiles: seq<nat>)
    requires ValidBoundaries(bd)
    ensures |tiles| == bd[|bd| - 1] + 1 && tiles[bd[|bd| - 1]] == |bd| - 1
    ensures forall c :: 0 <= c < bd[|bd| - 1] ==> tiles[c] == TileOf(bd, c)
  {
    var idx, size := 0, bd[|bd| - 1];
    tiles := [];
    for c := 0 to size + 1
      invariant |tiles| == c && idx < |bd|
      invariant c <= size ==> idx + 1 < |bd| && bd[idx] <= c <= bd[idx + 1]
      invariant c > size ==> idx == |bd| - 1 && tiles[size] == idx
      invariant forall k :: 0 <= k < c && k < size ==> tiles[k] == TileOf(bd, k)
    {
      assert bd[0] < bd[1];
      if c == bd[idx + 1] {
        assert idx + 2 < |bd| ==> bd[idx + 1] < bd[idx + 2];
        assert idx + 2 < |bd| ==> bd[idx + 1] < size;
        idx := idx + 1;
      }
      tiles := tiles + [idx];
      if c < size {
        assert bd[idx] < size;
        TileIsUnique(bd, c, idx);
      }
    }
  }

  // ---- rectangles ----

  /** A rectangle of tiles, both corners included. */
  datatype Rect = Rect(left: nat, top: nat, right: nat, bottom: nat) {
    predicate Contains(x: nat, y: nat) {
      left <= x <= right && top <= y <= bottom
    }
  }

  function Last(start: nat, size: nat, count: nat): nat
    requires start < count && size > 0
  {
    if start + size >= count then count - 1 else start + size - 1
  }

  /** The rectangles the generator still emits from tile (x, y). */
  function RectsFrom(cols: nat, rows: nat, w: nat, h: nat, x: nat, y: nat): seq<Rect>
    requires w > 0 && h > 0 && x < cols
    decreases rows - y, cols - x
  {
    if y >= rows then []
    else
      [Rect(x, y, Last(x, w, cols), Last(y, h, rows))] +
      (if x + w >= cols then RectsFrom(cols, rows, w, h, 0, y + h) else RectsFrom(cols, rows, w, h, x + w, y))
  }

  /** How many rectangles hold tile (x, y). */
  function CoverCount(rs: seq<Rect>, x: nat, y: nat): nat {
    if rs == [] then 0 else (if rs[0].Contains(x, y) then 1 else 0) + CoverCount(rs[1..], x, y)
  }

  /** From tile (x, y) on, each tile not yet passed is covered once, the others not at all. */
  lemma {:induction false} CoverFrom(cols: nat, rows: nat, w: nat, h: nat, x: nat, y: nat, tx: nat, ty: nat)
    requires w > 0 && h > 0 && x < cols && tx < cols && ty < rows
    ensures CoverCount(RectsFrom(cols, rows, w, h, x, y), tx, ty)
         == if ty >= y + h || (ty >= y && tx >= x) then 1 else 0
    decreases rows - y, cols - x
  {
    if y < rows {
      var rs := RectsFrom(cols, rows, w, h, x, y);
      if x + w >= cols {
        CoverFrom(cols, rows, w, h, 0, y + h, tx, ty);
        assert rs[1..] == RectsFrom(cols, rows, w, h, 0, y + h);
      } else {
        CoverFrom(cols, rows, w, h, x + w, y, tx, ty);
        assert rs[1..] == RectsFrom(cols, rows, w, h, x + w, y);
      }
    }
  }

  /** Every tile lies in exactly one slice. */
  lemma TilesCoveredOnce(cols: nat, rows: nat, w: nat, h: nat, tx: nat, ty: nat)
    requires w > 0 && h > 0 && tx < cols && ty < rows
    ensures CoverCount(RectsFrom(cols, rows, w, h, 0, 0), tx, ty) == 1
  {
    CoverFrom(cols, rows, w, h, 0, 0, tx, ty);
  }

  /** A slice of w times h tiles, less what the picture cuts off, on the grid of such slices. */
  ghost predicate FixedSize(cols: nat, rows: nat, w: nat, h: nat, r: Rect)
    requires w > 0 && h > 0
  {
    && r.left % w == 0 && r.top % h == 0
    && r.right < cols && (r.right == r.left + w - 1 || (r.right == cols - 1 && r.right < r.left + w))
    && r.bottom < rows && (r.bottom == r.top + h - 1 || (r.bottom == rows - 1 && r.bottom < r.top + h))
  }

  lemma NextMultiple(x: nat, w: nat)
    requires w > 0 && x % w == 0
    ensures (x + w) % w == 0 && 0 % w == 0
  {
    var q := x / w;
    assert x == q * w && (q + 1) * w == q * w + w;
    DivModUnique(q + 1, 0, w);
    DivModUnique(0, 0, w);
  }

  lemma {:induction false} RectsHaveFixedSize(cols: nat, rows: nat, w: nat, h: nat, x: nat, y: nat)
    requires w > 0 && h > 0 && x < cols && x % w == 0 && y % h == 0
    ensures forall r :: r in RectsFrom(cols, rows, w, h, x, y) ==> FixedSize(cols, rows, w, h, r)
    decreases rows - y, cols - x
  {
    if y < rows {
      NextMultiple(x, w);
      NextMultiple(y, h);
      if x + w >= cols {
        RectsHaveFixedSize(cols, rows, w, h, 0, y + h);
      } else {
        RectsHaveFixedSize(cols, rows, w, h, x + w, y);
      }
    }
  }

  // ---- CTUs ----

  ghost predicate Inside(g: Grid, r: Rect)
    requires g.Valid()
  {
    r.left <= r.right < g.Cols() && r.top <= r.bottom < g.Rows()
  }

  /** The CTUs of a slice, from its corner CTUs. */
  predicate ContainsCtu(g: Grid, r: Rect, cx: nat, cy: nat)
    requires g.Valid() && Inside(g, r)
  {
    g.colBd[r.left] <= cx <= g.colBd[r.right + 1] - 1 && g.rowBd[r.top] <= cy <= g.rowBd[r.bottom + 1] - 1
  }

  lemma SpanOfTiles(bd: seq<nat>, first: nat, last: nat, c: nat)
    requires ValidBoundaries(bd) && first <= last && last + 1 < |bd| && c < bd[|bd| - 1]
    ensures bd[first] <= c <= bd[last + 1] - 1 <==> first <= TileOf(bd, c) <= last
  {
    var t := TileOf(bd, c);
    Monotone(bd, t + 1, first);
    Monotone(bd, first, t);
    Monotone(bd, t + 1, last + 1);
    Monotone(bd, last + 1, t);
  }

  function CtuCoverCount(g: Grid, rs: seq<Rect>, cx: nat, cy: nat): nat
    requires g.Valid() && forall r :: r in rs ==> Inside(g, r)
  {
    if rs == [] then 0
    else (if ContainsCtu(g, rs[0], cx, cy) then 1 else 0) + CtuCoverCount(g, rs[1..], cx, cy)
  }

  lemma {:induction false} CtuCoverIsTileCover(g: Grid, rs: seq<Rect>, cx: nat, cy: nat)
    requires g.Valid() && forall r :: r in rs ==> Inside(g, r)
    requires cx < g.PicWidth() && cy < g.PicHeight()
    ensures CtuCoverCount(g, rs, cx, cy) == CoverCount(rs, TileOf(g.colBd, cx), TileOf(g.rowBd, cy))
  {
    if rs != [] {
      hide TileOf, ValidBoundaries, ContainsCtu, Inside, Rect.Contains;
      assert rs[0] in rs && Inside(g, rs[0]);
      CtuInTile(g, rs[0], cx, cy);
      CtuCoverIsTileCover(g, rs[1..], cx, cy);
    }
  }

  lemma CtuInTile(g: Grid, r: Rect, cx: nat, cy: nat)
    requires g.Valid() && Inside(g, r) && cx < g.PicWidth() && cy < g.PicHeight()
    ensures ContainsCtu(g, r, cx, cy) <==> r.Contains(TileOf(g.colBd, cx), TileOf(g.rowBd, cy))
  {
    hide TileOf, ValidBoundaries;
    SpanOfTiles(g.colBd, r.left, r.right, cx);
    SpanOfTiles(g.rowBd, r.top, r.bottom, cy);
  }

  lemma {:induction false} RectsInside(g: Grid, w: nat, h: nat, x: nat, y: nat)
    requires g.Valid() && w > 0 && h > 0 && x < g.Cols()
    ensures forall r :: r in RectsFrom(g.Cols(), g.Rows(), w, h, x, y) ==> Inside(g, r)
    decreases g.Rows() - y, g.Cols() - x
  {
    if y < g.Rows() {
      if x + w >= g.Cols() {
        RectsInside(g, w, h, 0, y + h);
      } else {
        RectsInside(g, w, h, x + w, y);
      }
    }
  }

  function Slices(g: Grid, w: nat, h: nat): seq<Rect>
    requires g.Valid() && w > 0 && h > 0
  {
    RectsFrom(g.Cols(), g.Rows(), w, h, 0, 0)
  }

  /** Every CTU of the picture lies in exactly one slice. */
  lemma CtusCoveredOnce(g: Grid, w: nat, h: nat, cx: nat, cy: nat)
    requires g.Valid() && w > 0 && h > 0 && cx < g.PicWidth() && cy < g.PicHeight()
    ensures forall r :: r in Slices(g, w, h) ==> Inside(g, r)
    ensures CtuCoverCount(g, Slices(g, w, h), cx, cy) == 1
  {
    RectsInside(g, w, h, 0, 0);
    CtuCoverIsTileCover(g, Slices(g, w, h), cx, cy);
    TilesCoveredOnce(g.Cols(), g.Rows(), w, h, TileOf(g.colBd, cx), TileOf(g.rowBd, cy));
  }

  // ---- the generator ----

  /** Raster-scan index of (x, y) in rows of this width. */
  function Raster(width: nat, x: nat, y: nat): nat {
    y * width + x
  }

  lemma RasterParts(width: nat, x: nat, y: nat)
    requires x < width
    ensures Raster(width, x, y) % width == x && Raster(width, x, y) / width == y
  {
    DivModUnique(y, x, width);
  }

  /** The CTU addresses, in raster order, of a slice's corners. */
  function Corners(g: Grid, r: Rect): seq<nat>
    requires g.Valid() && Inside(g, r)
  {
    LastCtu(g.colBd, r.right);
    LastCtu(g.rowBd, r.bottom);
    [Raster(g.PicWidth(), g.colBd[r.left], g.rowBd[r.top]),
     Raster(g.PicWidth(), g.colBd[r.right + 1] - 1, g.rowBd[r.bottom + 1] - 1)]
  }

  function Positions(g: Grid, rs: seq<Rect>): (pos: seq<nat>)
    requires g.Valid() && forall r :: r in rs ==> Inside(g, r)
    ensures |pos| == 2 * |rs|
  {
    if rs == [] then [] else Corners(g, rs[0]) + Positions(g, rs[1..])
  }

  method GenerateFixedSlices(g: Grid, w: nat, h: nat) returns (rectSlicePos: seq<nat>)
    requires g.Valid() && w > 0 && h > 0
    ensures forall r :: r in Slices(g, w, h) ==> Inside(g, r)
    ensures rectSlicePos == Positions(g, Slices(g, w, h))
    ensures forall r :: r in Slices(g, w, h) ==> FixedSize(g.Cols(), g.Rows(), w, h, r)
  {
    SlicesHaveFixedSize(g, w, h);
    var tileIdx: nat, numTiles: int := 0, g.Cols() * g.Rows();
    rectSlicePos := [];
    ghost var x: nat, y: nat := 0, 0;
    hide Pending, Slices, Raster, Corners, RectsFrom, Positions, NextX, NextY, Last;
    TileInRange(g.Cols(), g.Rows(), 0, 0);
    PendingStart(g, w, h);
    while tileIdx < numTiles
      invariant x < g.Cols() && tileIdx == Raster(g.Cols(), x, y)
      invariant y < g.Rows() || (x == 0 && y == g.Rows())
      invariant tileIdx < numTiles <==> y < g.Rows()
      invariant Pending(g, w, h, x, y, rectSlicePos)
      decreases g.Rows() - y, g.Cols() - x
    {
      hide ValidBoundaries;
      PendingStep(g, w, h, x, y, rectSlicePos);
      var corners, next := EmitSlice(g, w, h, tileIdx, x, y);
      rectSlicePos := rectSlicePos + corners;
      tileIdx := next;
      x, y := NextX(g, w, x), NextY(g, w, h, x, y);
      TileInRange(g.Cols(), g.Rows(), x, y);
    }
    PendingEnd(g, w, h, rectSlicePos);
  }

  lemma SlicesHaveFixedSize(g: Grid, w: nat, h: nat)
    requires g.Valid() && w > 0 && h > 0
    ensures forall r :: r in Slices(g, w, h) ==> FixedSize(g.Cols(), g.Rows(), w, h, r)
  {
    hide RectsFrom, FixedSize;
    DivModUnique(0, 0, w);
    DivModUnique(0, 0, h);
    RectsHaveFixedSize(g.Cols(), g.Rows(), w, h, 0, 0);
  }

  lemma PendingStart(g: Grid, w: nat, h: nat)
    requires g.Valid() && w > 0 && h > 0
    ensures Pending(g, w, h, 0, 0, [])
  {
    RectsInside(g, w, h, 0, 0);
    var pos := Positions(g, Slices(g, w, h));
    assert [] + pos == pos;
  }

  lemma PendingEnd(g: Grid, w: nat, h: nat, pos: seq<nat>)
    requires g.Valid() && w > 0 && h > 0 && Pending(g, w, h, 0, g.Rows(), pos)
    ensures forall r :: r in Slices(g, w, h) ==> Inside(g, r)
    ensures pos == Positions(g, Slices(g, w, h))
  {
    assert pos + [] == pos;
  }

  /** Where the next slice starts. */
  function NextX(g: Grid, w: nat, x: nat): (r: nat)
    requires g.Valid() && w > 0 && x < g.Cols()
    ensures r < g.Cols()
  {
    if x + w >= g.Cols() then 0 else x + w
  }

  function NextY(g: Grid, w: nat, h: nat, x: nat, y: nat): (r: nat)
    requires g.Valid() && w > 0 && h > 0 && x < g.Cols() && y < g.Rows()
    ensures r < g.Rows() || (r == g.Rows() && NextX(g, w, x) == 0)
    ensures r > y || (r == y && NextX(g, w, x) > x)
  {
    if x + w < g.Cols() then y else if y + h >= g.Rows() then g.Rows() else y + h
  }

  /** What is in the list, followed by the slices from tile (x, y) on, is the whole list. */
  ghost predicate Pending(g: Grid, w: nat, h: nat, x: nat, y: nat, pos: seq<nat>)
    requires g.Valid() && w > 0 && h > 0 && x < g.Cols()
  {
    && (forall r :: r in Slices(g, w, h) ==> Inside(g, r))
    && (forall r :: r in RectsFrom(g.Cols(), g.Rows(), w, h, x, y) ==> Inside(g, r))
    && pos + Positions(g, RectsFrom(g.Cols(), g.Rows(), w, h, x, y)) == Positions(g, Slices(g, w, h))
  }

  lemma TileInRange(cols: nat, rows: nat, x: nat, y: nat)
    requires x < cols && (y < rows || (x == 0 && y == rows))
    ensures Raster(cols, x, y) < cols * rows <==> y < rows
    ensures Raster(cols, 0, 0) == 0
  {
    MulLe(y + 1, rows, cols);
    assert (y + 1) * cols == y * cols + cols;
  }

  lemma PendingStep(g: Grid, w: nat, h: nat, x: nat, y: nat, pos: seq<nat>)
    requires g.Valid() && w > 0 && h > 0 && x < g.Cols() && y < g.Rows() && Pending(g, w, h, x, y, pos)
    ensures var rect := Rect(x, y, Last(x, w, g.Cols()), Last(y, h, g.Rows()));
            Inside(g, rect) && Pending(g, w, h, NextX(g, w, x), NextY(g, w, h, x, y), pos + Corners(g, rect))
  {
    var rs := RectsFrom(g.Cols(), g.Rows(), w, h, x, y);
    var rect := Rect(x, y, Last(x, w, g.Cols()), Last(y, h, g.Rows()));
    assert rs[0] == rect && rect in rs;
    var tail := rs[1..];
    assert forall r :: r in tail ==> r in rs;
    assert pos + (Corners(g, rect) + Positions(g, tail)) == pos + Corners(g, rect) + Positions(g, tail);
    if x + w >= g.Cols() {
      assert tail == RectsFrom(g.Cols(), g.Rows(), w, h, 0, y + h);
      if y + h >= g.Rows() {
        assert tail == [] == RectsFrom(g.Cols(), g.Rows(), w, h, 0, g.Rows());
      }
    } else {
      assert tail == RectsFrom(g.Cols(), g.Rows(), w, h, x + w, y);
    }
  }

  /** One pass of the loop: the corners to append and the next tile index. */
  method EmitSlice(g: Grid, w: nat, h: nat, tileIdx: nat, ghost x: nat, ghost y: nat)
    returns (corners: seq<nat>, next: nat)
    requires g.Valid() && w > 0 && h > 0 && x < g.Cols() && y < g.Rows() && tileIdx == Raster(g.Cols(), x, y)
    ensures var rect := Rect(x, y, Last(x, w, g.Cols()), Last(y, h, g.Rows()));
            Inside(g, rect) && corners == Corners(g, rect)
    ensures next == Raster(g.Cols(), NextX(g, w, x), NextY(g, w, h, x, y))
  {
    hide Raster, TileOf, StopCtu;
    var startTileX, startTileY := tileIdx % g.Cols(), tileIdx / g.Cols();
    RasterParts(g.Cols(), x, y);
    var startCtuX, startCtuY := g.colBd[startTileX], g.rowBd[startTileY];
    var stopCtuX, stopCtuY := StopCtu(g.colBd, startTileX, w), StopCtu(g.rowBd, startTileY, h);
    var stopTileX, stopTileY := TileOf(g.colBd, stopCtuX), TileOf(g.rowBd, stopCtuY);
    corners := [Raster(g.PicWidth(), startCtuX, startCtuY), Raster(g.PicWidth(), stopCtuX, stopCtuY)];
    next := NextTileIdx(g.Cols(), tileIdx, stopTileX - startTileX + 1, stopTileY - startTileY + 1, x, y);
  }

  /** The last CTU column (or row) of a slice that starts in this tile. */
  function StopCtu(bd: seq<nat>, start: nat, size: nat): (stop: nat)
    requires ValidBoundaries(bd) && start + 1 < |bd| && size > 0
    ensures stop == bd[Last(start, size, |bd| - 1) + 1] - 1 < bd[|bd| - 1]
    ensures TileOf(bd, stop) == Last(start, size, |bd| - 1)
  {
    LastCtu(bd, Last(start, size, |bd| - 1));
    if start + size >= |bd| - 1 then bd[|bd| - 1] - 1 else bd[start + size] - 1
  }

  /** Move to the next tile in raster order that is not covered yet. */
  method NextTileIdx(cols: nat, tileIdx: nat, sliceWidth: nat, sliceHeight: nat, ghost x: nat,
                     ghost y: nat) returns (next: nat)
    requires tileIdx == Raster(cols, x, y) && x < x + sliceWidth <= cols && sliceHeight > 0
    ensures next == if x + sliceWidth == cols then Raster(cols, 0, y + sliceHeight) else Raster(cols, x + sliceWidth, y)
  {
    NextTile(cols, x, y, sliceWidth, sliceHeight);
    next := tileIdx + sliceWidth;
    if next % cols == 0 {
      next := next + (sliceHeight - 1) * cols;
    }
  }

  lemma LastCtu(bd: seq<nat>, t: nat)
    requires ValidBoundaries(bd) && t + 1 < |bd|
    ensures bd[t + 1] >= 1 && bd[t + 1] - 1 < bd[|bd| - 1] && TileOf(bd, bd[t + 1] - 1) == t
  {
    assert bd[t] < bd[t + 1] <= bd[|bd| - 1];
    TileIsUnique(bd, bd[t + 1] - 1, t);
  }

  /** Stepping over a slice reaches the row end exactly at the last column. */
  lemma NextTile(cols: nat, x: nat, y: nat, width: nat, height: nat)
    requires x < x + width <= cols && height > 0
    ensures var next := y * cols + x + width;
            if x + width == cols then next % cols == 0 && next + (height - 1) * cols == (y + height) * cols
            else next % cols != 0
  {
    if x + width == cols {
      assert (y + 1) * cols == y * cols + cols;
      assert (y + height) * cols == (y + 1) * cols + (height - 1) * cols;
      DivModUnique(y + 1, 0, cols);
    } else {
      DivModUnique(y, x + width, cols);
    }
  }
}

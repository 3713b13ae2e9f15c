/** The pass that turns a list of slice corner addresses into slice parameters, and what it does
    on the list the fixed-size generator produces. */
module SliceParameters {
  import opened Arith
  import opened SliceGrid

  /** Values of a 32-bit word. */
  const WORD := 0x1_0000_0000

  datatype SliceParam = SliceParam(widthInTiles: nat, heightInTiles: nat, tileIdx: nat,
                                   numSlicesInTile: nat, heightInCtu: nat)

  /** A slice within one tile. */
  predicate Single(s: SliceParam) {
    s.widthInTiles == 1 && s.heightInTiles == 1
  }

  /** A slice's corners in CTUs and in tiles. */
  datatype Location = Location(startCtuX: nat, startCtuY: nat, stopCtuX: nat, stopCtuY: nat,
                               startTileX: nat, startTileY: nat, stopTileX: nat, stopTileY: nat)

  ghost predicate InPicture(g: Grid, address: nat)
    requires g.Valid()
  {
    address / g.PicWidth() < g.PicHeight()
  }

  function Locate(g: Grid, start: nat, stop: nat): Location
    requires g.Valid() && InPicture(g, start) && InPicture(g, stop)
  {
    var w := g.PicWidth();
    Location(start % w, start / w, stop % w, stop / w,
             TileOf(g.colBd, start % w), TileOf(g.rowBd, start / w),
             TileOf(g.colBd, stop % w), TileOf(g.rowBd, stop / w))
  }

  /** A span of tiles or CTUs, in 32-bit unsigned arithmetic. */
  function Span(first: nat, last: nat): nat {
    (last - first + 1) % WORD
  }

  /** The slice starts and ends on tile edges, vertically only if it is more than one tile wide or high. */
  predicate Aligned(g: Grid, l: Location)
    requires g.Valid() && l.startTileX < g.Cols() && l.stopTileX < g.Cols()
    requires l.startTileY < g.Rows() && l.stopTileY < g.Rows()
  {
    && l.startCtuX == g.colBd[l.startTileX]
    && l.stopCtuX == g.colBd[l.stopTileX + 1] - 1
    && (Span(l.startTileX, l.stopTileX) > 1 || Span(l.startTileY, l.stopTileY) > 1 ==>
          l.startCtuY == g.rowBd[l.startTileY] && l.stopCtuY == g.rowBd[l.stopTileY + 1] - 1)
  }

  /** The tile index predicted from the previous slice. */
  function Predicted(cols: nat, s: SliceParam): nat
    requires cols > 0
  {
    var last := (s.tileIdx + s.widthInTiles) % WORD;
    if last % cols == 0 then (last + (s.heightInTiles - 1) * cols) % WORD else last
  }

  // ---- the generated list ----

  function Expected(g: Grid, r: Rect): SliceParam
    requires g.Valid() && Inside(g, r)
  {
    var single := r.left == r.right && r.top == r.bottom;
    Monotone(g.rowBd, r.top, r.bottom + 1);
    SliceParam(r.right - r.left + 1, r.bottom - r.top + 1, Raster(g.Cols(), r.left, r.top),
               if single then 1 else 0, if single then g.rowBd[r.bottom + 1] - g.rowBd[r.top] else 0)
  }

  lemma {:induction false} PositionsAt(g: Grid, rs: seq<Rect>, k: nat)
    requires g.Valid() && (forall r :: r in rs ==> Inside(g, r)) && k < |rs|
    ensures Inside(g, rs[k])
    ensures Positions(g, rs)[2 * k] == Corners(g, rs[k])[0] && Positions(g, rs)[2 * k + 1] == Corners(g, rs[k])[1]
  {
    assert rs[k] in rs;
    hide Corners;
    if k > 0 {
      PositionsAt(g, rs[1..], k - 1);
    }
  }

  lemma LocateCorners(g: Grid, r: Rect)
    requires g.Valid() && Inside(g, r)
    ensures var c := Corners(g, r);
            && |c| == 2 && InPicture(g, c[0]) && InPicture(g, c[1])
            && Locate(g, c[0], c[1]) == Location(g.colBd[r.left], g.rowBd[r.top], g.colBd[r.right + 1] - 1,
                                                g.rowBd[r.bottom + 1] - 1, r.left, r.top, r.right, r.bottom)
            && g.colBd[r.left] <= g.colBd[r.right + 1] - 1 && g.rowBd[r.top] <= g.rowBd[r.bottom + 1] - 1
  {
    hide TileOf, Raster;
    LastCtu(g.colBd, r.right);
    LastCtu(g.rowBd, r.bottom);
    FirstCtu(g.colBd, r.left);
    FirstCtu(g.rowBd, r.top);
    RasterParts(g.PicWidth(), g.colBd[r.left], g.rowBd[r.top]);
    RasterParts(g.PicWidth(), g.colBd[r.right + 1] - 1, g.rowBd[r.bottom + 1] - 1);
    SpanNotEmpty(g.colBd, r.left, r.right);
    SpanNotEmpty(g.rowBd, r.top, r.bottom);
  }

  lemma FirstCtu(bd: seq<nat>, t: nat)
    requires ValidBoundaries(bd) && t + 1 < |bd|
    ensures bd[t] < bd[|bd| - 1] && TileOf(bd, bd[t]) == t
  {
    Monotone(bd, t + 1, |bd| - 1);
    TileIsUnique(bd, bd[t], t);
  }

  lemma SpanNotEmpty(bd: seq<nat>, first: nat, last: nat)
    requires ValidBoundaries(bd) && first <= last && last + 1 < |bd|
    ensures bd[first] <= bd[last + 1] - 1
  {
    Monotone(bd, first + 1, last + 1);
  }

  /** From any slice on, the list is what the generator emits from that slice's first tile. */
  lemma {:induction false} Suffix(g: Grid, w: nat, h: nat, x: nat, y: nat, k: nat)
    requires g.Valid() && w > 0 && h > 0 && x < g.Cols()
    requires k < |RectsFrom(g.Cols(), g.Rows(), w, h, x, y)|
    ensures var rs := RectsFrom(g.Cols(), g.Rows(), w, h, x, y);
            && rs[k].left < g.Cols() && rs[k].top < g.Rows()
            && rs[k..] == RectsFrom(g.Cols(), g.Rows(), w, h, rs[k].left, rs[k].top)
    decreases k
  {
    var rs := RectsFrom(g.Cols(), g.Rows(), w, h, x, y);
    if k == 0 {
      assert rs[0..] == rs;
    } else {
      RectsTail(g, w, h, x, y);
      hide RectsFrom;
      Suffix(g, w, h, NextX(g, w, x), NextY(g, w, h, x, y), k - 1);
      assert rs[k..] == rs[1..][k - 1..] && rs[k] == rs[1..][k - 1];
    }
  }

  lemma RectsTail(g: Grid, w: nat, h: nat, x: nat, y: nat)
    requires g.Valid() && w > 0 && h > 0 && x < g.Cols()
    requires RectsFrom(g.Cols(), g.Rows(), w, h, x, y) != []
    ensures y < g.Rows()
    ensures var rs := RectsFrom(g.Cols(), g.Rows(), w, h, x, y);
            && rs[0] == Rect(x, y, Last(x, w, g.Cols()), Last(y, h, g.Rows()))
            && rs[1..] == RectsFrom(g.Cols(), g.Rows(), w, h, NextX(g, w, x), NextY(g, w, h, x, y))
  {
    if y < g.Rows() && x + w >= g.Cols() && y + h >= g.Rows() {
      assert RectsFrom(g.Cols(), g.Rows(), w, h, 0, y + h) == [] == RectsFrom(g.Cols(), g.Rows(), w, h, 0, g.Rows());
    }
  }

  /** The slice after a given one, by the generator's step. */
  lemma NextSlice(g: Grid, w: nat, h: nat, k: nat)
    requires g.Valid() && w > 0 && h > 0 && k + 1 < |Slices(g, w, h)|
    ensures var a, b := Slices(g, w, h)[k], Slices(g, w, h)[k + 1];
            && a == Rect(a.left, a.top, a.right, a.bottom) && a.left < g.Cols() && a.top < g.Rows()
            && a.right == Last(a.left, w, g.Cols()) && a.bottom == Last(a.top, h, g.Rows())
            && b.left == NextX(g, w, a.left) && b.top == NextY(g, w, h, a.left, a.top) < g.Rows()
  {
    hide RectsFrom, Last, NextX, NextY;
    var rs := Slices(g, w, h);
    SliceSuffix(g, w, h, k);
    var x, y := rs[k].left, rs[k].top;
    RectsTail(g, w, h, x, y);
    assert rs[k..][1..] == rs[k + 1..];
    RectsTail(g, w, h, NextX(g, w, x), NextY(g, w, h, x, y));
  }

  lemma SliceSuffix(g: Grid, w: nat, h: nat, k: nat)
    requires g.Valid() && w > 0 && h > 0 && k < |Slices(g, w, h)|
    ensures var rs := Slices(g, w, h);
            && rs[k].left < g.Cols() && rs[k].top < g.Rows()
            && rs[k..] == RectsFrom(g.Cols(), g.Rows(), w, h, rs[k].left, rs[k].top)
  {
    Suffix(g, w, h, 0, 0, k);
  }

  /** The prediction rule equals the generator's step, and no two neighbours share a tile. */
  lemma Neighbours(g: Grid, w: nat, h: nat, k: nat)
    requires g.Valid() && w > 0 && h > 0 && k + 1 < |Slices(g, w, h)| && g.Cols() * g.Rows() < WORD
    ensures Inside(g, Slices(g, w, h)[k]) && Inside(g, Slices(g, w, h)[k + 1])
    ensures var a, b := Expected(g, Slices(g, w, h)[k]), Expected(g, Slices(g, w, h)[k + 1]);
            Predicted(g.Cols(), a) == b.tileIdx && a.tileIdx != b.tileIdx
  {
    hide RectsFrom, Slices, Raster, Predicted, ValidBoundaries;
    SlicesInside(g, w, h, k);
    SlicesInside(g, w, h, k + 1);
    NextSlice(g, w, h, k);
    var a := Slices(g, w, h)[k];
    StepIsPredicted(g, w, h, a.left, a.top, Expected(g, a));
  }

  lemma SlicesInside(g: Grid, w: nat, h: nat, k: nat)
    requires g.Valid() && w > 0 && h > 0 && k < |Slices(g, w, h)|
    ensures Inside(g, Slices(g, w, h)[k])
  {
    RectsInside(g, w, h, 0, 0);
    assert Slices(g, w, h)[k] in Slices(g, w, h);
  }

  lemma StepIsPredicted(g: Grid, w: nat, h: nat, x: nat, y: nat, s: SliceParam)
    requires g.Valid() && w > 0 && h > 0 && x < g.Cols() && y < g.Rows() && g.Cols() * g.Rows() < WORD
    requires s.widthInTiles == Last(x, w, g.Cols()) - x + 1 && s.heightInTiles == Last(y, h, g.Rows()) - y + 1
    requires s.tileIdx == Raster(g.Cols(), x, y) && NextY(g, w, h, x, y) < g.Rows()
    ensures Predicted(g.Cols(), s) == Raster(g.Cols(), NextX(g, w, x), NextY(g, w, h, x, y)) != s.tileIdx
  {
    var nx, ny := NextX(g, w, x), NextY(g, w, h, x, y);
    if x + s.widthInTiles < g.Cols() {
      StepInRow(g.Cols(), g.Rows(), x, y, s);
    } else {
      StepToRow(g.Cols(), g.Rows(), x, y, s);
    }
    hide Raster, Predicted;
    RastersDiffer(g.Cols(), x, y, nx, ny);
  }

  lemma RastersDiffer(cols: nat, x: nat, y: nat, nx: nat, ny: nat)
    requires x < cols && nx < cols && (x != nx || y != ny)
    ensures Raster(cols, x, y) != Raster(cols, nx, ny)
  {
    RasterInjective(x, y, nx, ny, cols);
  }

  lemma StepInRow(cols: nat, rows: nat, x: nat, y: nat, s: SliceParam)
    requires x < x + s.widthInTiles < cols && y < rows && cols * rows < WORD && s.tileIdx == Raster(cols, x, y)
    ensures Predicted(cols, s) == Raster(cols, x + s.widthInTiles, y)
  {
    var last := Raster(cols, x + s.widthInTiles, y);
    assert s.tileIdx + s.widthInTiles == last;
    hide Raster;
    TileInRange(cols, rows, x + s.widthInTiles, y);
    RasterParts(cols, x + s.widthInTiles, y);
    assert last % WORD == last;
  }

  lemma StepToRow(cols: nat, rows: nat, x: nat, y: nat, s: SliceParam)
    requires x < x + s.widthInTiles == cols && s.heightInTiles > 0 && y + s.heightInTiles < rows
    requires cols * rows < WORD && s.tileIdx == Raster(cols, x, y)
    ensures Predicted(cols, s) == Raster(cols, 0, y + s.heightInTiles)
  {
    var step := (s.heightInTiles - 1) * cols;
    NextTile(cols, x, y, s.widthInTiles, s.heightInTiles);
    TileInRange(cols, rows, 0, y + s.heightInTiles);
    assert step >= 0;
  }

  // ---- the pass ----

  /** The tile part of a slice's parameters, from its corner addresses. */
  ghost predicate Placed(g: Grid, s: SliceParam, start: nat, stop: nat)
    requires g.Valid()
  {
    && InPicture(g, start) && InPicture(g, stop)
    && var l := Locate(g, start, stop);
       && s.widthInTiles == Span(l.startTileX, l.stopTileX)
       && s.heightInTiles == Span(l.startTileY, l.stopTileY)
       && s.tileIdx == Raster(g.Cols(), l.startTileX, l.startTileY)
  }

  ghost predicate AllPlaced(g: Grid, pos: seq<nat>, slices: seq<SliceParam>)
    requires g.Valid()
  {
    2 * |slices| <= |pos| && forall k :: 0 <= k < |slices| ==> Placed(g, slices[k], pos[2 * k], pos[2 * k + 1])
  }

  /** Every slice in a new tile is where the previous slice predicts it. */
  ghost predicate AllPredicted(cols: nat, slices: seq<SliceParam>)
    requires cols > 0
  {
    forall k :: 0 < k < |slices| ==>
      slices[k].tileIdx == slices[k - 1].tileIdx || slices[k].tileIdx == Predicted(cols, slices[k - 1])
  }

  /** The slice at index k is the first one within its tile, or spans several. */
  predicate Starts(slices: seq<SliceParam>, k: nat)
    requires k < |slices|
  {
    k == 0 || !Single(slices[k - 1]) || !Single(slices[k]) || slices[k].tileIdx != slices[k - 1].tileIdx
  }

  /** It does, but not where the slice before predicts it. */
  ghost predicate Deviates(cols: nat, slices: seq<SliceParam>, k: nat)
    requires cols > 0
  {
    0 < k < |slices| && Starts(slices, k) && slices[k].tileIdx != Predicted(cols, slices[k - 1])
  }

  ghost predicate SomeDeviates(cols: nat, slices: seq<SliceParam>)
    requires cols > 0
  {
    exists k :: Deviates(cols, slices, k)
  }

  /** If none does, every slice is predicted or shares the tile of the slice before. */
  lemma NoneDeviates(cols: nat, slices: seq<SliceParam>)
    requires cols > 0 && !SomeDeviates(cols, slices)
    ensures AllPredicted(cols, slices)
  {
    hide Predicted;
    forall k | 0 < k < |slices|
      ensures slices[k].tileIdx == slices[k - 1].tileIdx || slices[k].tileIdx == Predicted(cols, slices[k - 1])
    {
      assert !Deviates(cols, slices, k);
    }
  }

  ghost predicate AlignedAt(g: Grid, pos: seq<nat>, k: nat)
    requires g.Valid()
  {
    2 * k + 1 < |pos| && InPicture(g, pos[2 * k]) && InPicture(g, pos[2 * k + 1]) &&
    Aligned(g, Locate(g, pos[2 * k], pos[2 * k + 1]))
  }

  /** The slices that are checked for alignment all pass: later ones within a tile are not checked. */
  ghost predicate StartsAligned(g: Grid, pos: seq<nat>, slices: seq<SliceParam>)
    requires g.Valid()
  {
    forall k :: 0 <= k < |slices| && Starts(slices, k) ==> AlignedAt(g, pos, k)
  }

  lemma AddressInPicture(g: Grid, address: nat)
    requires g.Valid()
    ensures address < g.PicWidth() * g.PicHeight() <==> InPicture(g, address)
  {
    var w := g.PicWidth();
    var q := address / w;
    MulLe(q + 1, g.PicHeight(), w);
    MulLe(g.PicHeight(), q, w);
    assert address == q * w + address % w && (q + 1) * w == q * w + w;
  }

  /** The list in use: one slice for the whole picture when none is given. */
  function Listed(g: Grid, pos: seq<nat>): seq<nat>
    requires g.Valid()
  {
    WholePicture(g);
    if pos == [] then [0, g.PicWidth() * g.PicHeight() - 1] else pos
  }

  lemma WholePicture(g: Grid)
    requires g.Valid()
    ensures g.PicWidth() * g.PicHeight() > 0
  {
    Monotone(g.colBd, 1, |g.colBd| - 1);
    Monotone(g.rowBd, 1, |g.rowBd| - 1);
    MulLe(1, g.PicHeight(), g.PicWidth());
  }

  /** The first slice of a group: slices within one tile are counted and measured in CTUs. */
  function Finished(s: SliceParam, l: Location, count: nat): SliceParam {
    if Single(s)
    then s.(numSlicesInTile := count, heightInCtu := Span(l.startCtuY, l.stopCtuY))
    else s.(numSlicesInTile := 0, heightInCtu := 0)
  }

  method SliceAt(g: Grid, pos: seq<nat>, i: nat) returns (ok: bool, l: Location, s: SliceParam)
    requires g.Valid() && 2 * i + 1 < |pos|
    ensures ok <==> InPicture(g, pos[2 * i]) && InPicture(g, pos[2 * i + 1])
    ensures ok ==> l == Locate(g, pos[2 * i], pos[2 * i + 1]) && Placed(g, s, pos[2 * i], pos[2 * i + 1])
    ensures ok ==> s.numSlicesInTile == 0 && s.heightInCtu == 0 && s.tileIdx == StartTile(g, pos[2 * i])
  {
    AddressInPicture(g, pos[2 * i]);
    AddressInPicture(g, pos[2 * i + 1]);
    hide InPicture, TileOf, Raster;
    var size := g.PicWidth() * g.PicHeight();
    ok := pos[2 * i] < size && pos[2 * i + 1] < size;
    l := Location(0, 0, 0, 0, 0, 0, 0, 0);
    s := SliceParam(0, 0, 0, 0, 0);
    if ok {
      l := Locate(g, pos[2 * i], pos[2 * i + 1]);
      s := SliceParam(Span(l.startTileX, l.stopTileX), Span(l.startTileY, l.stopTileY),
                      Raster(g.Cols(), l.startTileX, l.startTileY), 0, 0);
    }
  }

  /** These parameters are placed at the addresses from index i on, all in one tile. */
  ghost predicate InTile(g: Grid, pos: seq<nat>, i: nat, tileIdx: nat, more: seq<SliceParam>)
    requires g.Valid()
  {
    && 2 * (i + |more|) <= |pos|
    && (forall k :: 0 <= k < |more| ==> more[k].tileIdx == tileIdx)
    && (forall k :: 0 <= k < |more| ==> Placed(g, more[k], pos[2 * (i + k)], pos[2 * (i + k) + 1]))
  }

  /** The slice at index i, if any, lies in the picture and starts in another tile. */
  ghost predicate AnotherTile(g: Grid, pos: seq<nat>, i: nat, tileIdx: nat)
    requires g.Valid()
  {
    2 * i + 1 < |pos| ==>
      && InPicture(g, pos[2 * i]) && InPicture(g, pos[2 * i + 1])
      && tileIdx != StartTile(g, pos[2 * i])
  }

  function StartTile(g: Grid, start: nat): nat
    requires g.Valid() && InPicture(g, start)
  {
    Raster(g.Cols(), TileOf(g.colBd, start % g.PicWidth()), TileOf(g.rowBd, start / g.PicWidth()))
  }

  /** The height in CTUs of the slice at index n. */
  function CtuRows(g: Grid, pos: seq<nat>, n: nat): nat
    requires g.Valid() && 2 * n + 1 < |pos|
  {
    Span(pos[2 * n] / g.PicWidth(), pos[2 * n + 1] / g.PicWidth())
  }

  /** The slice at index n lies within this tile alone. */
  ghost predicate Shares(g: Grid, pos: seq<nat>, n: nat, tileIdx: nat)
    requires g.Valid()
  {
    && 2 * n + 1 < |pos| && InPicture(g, pos[2 * n]) && InPicture(g, pos[2 * n + 1])
    && var l := Locate(g, pos[2 * n], pos[2 * n + 1]);
       && StartTile(g, pos[2 * n]) == tileIdx
       && Span(l.startTileX, l.stopTileX) == 1 && Span(l.startTileY, l.stopTileY) == 1
  }

  /** These are the parameters of the slice at index n, which lies within a tile that has an earlier slice. */
  ghost predicate SharedAt(g: Grid, pos: seq<nat>, n: nat, tileIdx: nat, s: SliceParam)
    requires g.Valid()
  {
    Shares(g, pos, n, tileIdx) && s == SliceParam(1, 1, tileIdx, 0, CtuRows(g, pos, n))
  }

  /** The parameters of slices from index i on, all within one tile. */
  ghost predicate Rest(g: Grid, pos: seq<nat>, i: nat, tileIdx: nat, more: seq<SliceParam>)
    requires g.Valid()
  {
    forall k :: 0 <= k < |more| ==> SharedAt(g, pos, i + k, tileIdx, more[k])
  }

  lemma RestAt(g: Grid, pos: seq<nat>, i: nat, tileIdx: nat, more: seq<SliceParam>, k: nat)
    requires g.Valid() && Rest(g, pos, i, tileIdx, more) && k < |more|
    ensures Shares(g, pos, i + k, tileIdx) && 2 * (i + k) + 1 < |pos|
    ensures more[k] == SliceParam(1, 1, tileIdx, 0, CtuRows(g, pos, i + k))
    ensures Placed(g, more[k], pos[2 * (i + k)], pos[2 * (i + k) + 1])
  {
    assert SharedAt(g, pos, i + k, tileIdx, more[k]);
  }

  lemma RestExtends(g: Grid, pos: seq<nat>, i: nat, tileIdx: nat, more: seq<SliceParam>, s: SliceParam)
    requires g.Valid() && Rest(g, pos, i, tileIdx, more) && SharedAt(g, pos, i + |more|, tileIdx, s)
    ensures Rest(g, pos, i, tileIdx, more + [s])
  {
    hide SharedAt;
  }

  lemma RestIsInTile(g: Grid, pos: seq<nat>, i: nat, tileIdx: nat, more: seq<SliceParam>)
    requires g.Valid() && Rest(g, pos, i, tileIdx, more) && 2 * i <= |pos|
    ensures InTile(g, pos, i, tileIdx, more)
  {
    hide Rest, Shares, CtuRows, Placed;
    forall k | 0 <= k < |more|
      ensures 2 * (i + k) + 1 < |pos| && more[k].tileIdx == tileIdx
      ensures Placed(g, more[k], pos[2 * (i + k)], pos[2 * (i + k) + 1])
    {
      RestAt(g, pos, i, tileIdx, more, k);
    }
    if more != [] {
      RestAt(g, pos, i, tileIdx, more, |more| - 1);
    }
  }

  /** What one look at the next slice decides. */
  lemma SharesExactly(g: Grid, pos: seq<nat>, n: nat, tileIdx: nat, l: Location, s: SliceParam)
    requires g.Valid() && 2 * n + 1 < |pos| && InPicture(g, pos[2 * n]) && InPicture(g, pos[2 * n + 1])
    requires l == Locate(g, pos[2 * n], pos[2 * n + 1]) && Placed(g, s, pos[2 * n], pos[2 * n + 1])
    ensures Shares(g, pos, n, tileIdx) <==> s.tileIdx == tileIdx && Single(s)
    ensures Shares(g, pos, n, tileIdx) && s.numSlicesInTile == 0 ==>
      SharedAt(g, pos, n, tileIdx, s.(heightInCtu := Span(l.startCtuY, l.stopCtuY)))
  {
    hide InPicture, Span;
  }

  /** The slices from index i on that lie within the tile of the slice before, all of them: the next one, if
      the list goes on, is not within it. */
  method RestOfTile(g: Grid, pos: seq<nat>, i: nat, tileIdx: nat) returns (ok: bool, more: seq<SliceParam>)
    requires g.Valid() && 2 * i <= |pos|
    ensures Rest(g, pos, i, tileIdx, more)
    ensures !Shares(g, pos, i + |more|, tileIdx)
    ensures !ok <==> 2 * (i + |more|) + 1 < |pos| &&
                     !(InPicture(g, pos[2 * (i + |more|)]) && InPicture(g, pos[2 * (i + |more|) + 1]))
  {
    hide *;
    ok, more := true, [];
    NoRest(g, pos, i, tileIdx);
    while i + |more| < |pos| / 2
      invariant i + |more| <= |pos| / 2
      invariant Rest(g, pos, i, tileIdx, more)
      invariant ok
      decreases |pos| - |more|
    {
      var n := i + |more|;
      var l, s;
      ok, l, s := SliceAt(g, pos, n);
      if !ok {
        SharesMeans(g, pos, n, tileIdx);
        return;
      }
      SharesExactly(g, pos, n, tileIdx, l, s);
      if s.tileIdx != tileIdx || !Single(s) {
        return;
      }
      s := s.(heightInCtu := Span(l.startCtuY, l.stopCtuY));
      RestExtends(g, pos, i, tileIdx, more, s);
      more := more + [s];
    }
    SharesMeans(g, pos, i + |more|, tileIdx);
  }

  lemma NoRest(g: Grid, pos: seq<nat>, i: nat, tileIdx: nat)
    requires g.Valid()
    ensures Rest(g, pos, i, tileIdx, [])
  {
  }

  lemma SharesMeans(g: Grid, pos: seq<nat>, n: nat, tileIdx: nat)
    requires g.Valid()
    ensures Shares(g, pos, n, tileIdx) ==>
      && 2 * n + 1 < |pos| && InPicture(g, pos[2 * n]) && InPicture(g, pos[2 * n + 1])
      && StartTile(g, pos[2 * n]) == tileIdx
  {
  }

  lemma NotShared(g: Grid, pos: seq<nat>, i: nat, tileIdx: nat, more: seq<SliceParam>)
    requires g.Valid() && AnotherTile(g, pos, i, tileIdx) && Rest(g, pos, i, tileIdx, more)
    ensures more == []
    ensures 2 * i + 1 < |pos| ==> InPicture(g, pos[2 * i]) && InPicture(g, pos[2 * i + 1])
  {
    hide InPicture, CtuRows, StartTile, Span, Rest, Placed;
    if more != [] {
      RestAt(g, pos, i, tileIdx, more, 0);
    }
  }

  // ---- groups of slices ----

  /** One slice, or all the slices that lie within its tile: the first one carries their number. */
  ghost predicate GroupAt(g: Grid, pos: seq<nat>, i: nat, group: seq<SliceParam>)
    requires g.Valid()
  {
    && group != [] && 2 * (i + |group|) <= |pos| && Placed(g, group[0], pos[2 * i], pos[2 * i + 1])
    && var head := group[0];
       if Single(head) then
         && head.numSlicesInTile == |group| && head.heightInCtu == CtuRows(g, pos, i)
         && Rest(g, pos, i + 1, head.tileIdx, group[1..]) && !Shares(g, pos, i + |group|, head.tileIdx)
       else |group| == 1 && head.numSlicesInTile == 0 && head.heightInCtu == 0
  }

  /** The slices from index i on, group after group. */
  ghost predicate Grouped(g: Grid, pos: seq<nat>, i: nat, slices: seq<SliceParam>)
    requires g.Valid()
    decreases |slices|
  {
    slices == [] ||
    exists n :: 0 < n <= |slices| && GroupAt(g, pos, i, slices[..n]) && Grouped(g, pos, i + n, slices[n..])
  }

  lemma {:induction false} GroupedSnoc(g: Grid, pos: seq<nat>, i: nat, slices: seq<SliceParam>, group: seq<SliceParam>)
    requires g.Valid() && Grouped(g, pos, i, slices) && GroupAt(g, pos, i + |slices|, group)
    ensures Grouped(g, pos, i, slices + group)
    decreases |slices|
  {
    hide GroupAt;
    var all := slices + group;
    if slices == [] {
      assert all[..|group|] == group && all[|group|..] == [];
      GroupNotEmpty(g, pos, i, group);
    } else {
      var n :| 0 < n <= |slices| && GroupAt(g, pos, i, slices[..n]) && Grouped(g, pos, i + n, slices[n..]);
      GroupedSnoc(g, pos, i + n, slices[n..], group);
      assert all[..n] == slices[..n] && all[n..] == slices[n..] + group;
    }
  }

  lemma GroupNotEmpty(g: Grid, pos: seq<nat>, i: nat, group: seq<SliceParam>)
    requires g.Valid() && GroupAt(g, pos, i, group)
    ensures group != []
  {
  }

  lemma GroupMeans(g: Grid, pos: seq<nat>, i: nat, group: seq<SliceParam>)
    requires g.Valid() && GroupAt(g, pos, i, group)
    ensures group != [] && group[0] == GroupHead(group[0], |group|)
    ensures if Single(group[0])
            then !Shares(g, pos, i + |group|, group[0].tileIdx) else |group| == 1
    ensures Rest(g, pos, i + 1, group[0].tileIdx, group[1..])
  {
    hide Shares, CtuRows, Placed;
  }

  /** The first slice of a group of n. */
  function GroupHead(s: SliceParam, n: nat): SliceParam {
    s.(numSlicesInTile := if Single(s) then n else 0)
  }

  lemma HeadIsUnique(g: Grid, pos: seq<nat>, i: nat, a: seq<SliceParam>, b: seq<SliceParam>)
    requires g.Valid() && GroupAt(g, pos, i, a) && GroupAt(g, pos, i, b)
    ensures a[0].tileIdx == b[0].tileIdx && a[0].heightInCtu == b[0].heightInCtu
    ensures a[0].widthInTiles == b[0].widthInTiles && a[0].heightInTiles == b[0].heightInTiles
    ensures Single(a[0]) <==> Single(b[0])
  {
    hide InPicture, CtuRows, Span, Rest, Shares, Locate, Raster;
  }

  lemma LengthIsUnique(g: Grid, pos: seq<nat>, i: nat, a: seq<SliceParam>, b: seq<SliceParam>)
    requires g.Valid() && GroupAt(g, pos, i, a) && GroupAt(g, pos, i, b)
    ensures |b| <= |a|
  {
    hide *;
    GroupMeans(g, pos, i, a);
    GroupMeans(g, pos, i, b);
    HeadIsUnique(g, pos, i, a, b);
    if |a| < |b| {
      assert |a| - 1 < |b[1..]| && i + 1 + (|a| - 1) == i + |a|;
      RestAt(g, pos, i + 1, b[0].tileIdx, b[1..], |a| - 1);
    }
  }

  /** A group is determined by the list. */
  lemma GroupIsUnique(g: Grid, pos: seq<nat>, i: nat, a: seq<SliceParam>, b: seq<SliceParam>)
    requires g.Valid() && GroupAt(g, pos, i, a) && GroupAt(g, pos, i, b)
    ensures a == b
  {
    hide Shares, Rest, Placed, CtuRows, GroupAt;
    GroupMeans(g, pos, i, a);
    GroupMeans(g, pos, i, b);
    HeadIsUnique(g, pos, i, a, b);
    LengthIsUnique(g, pos, i, a, b);
    LengthIsUnique(g, pos, i, b, a);
    RestIsUnique(g, pos, i + 1, a[0].tileIdx, a[1..], b[1..]);
    assert a == [a[0]] + a[1..] && b == [b[0]] + b[1..];
  }

  lemma RestIsUnique(g: Grid, pos: seq<nat>, i: nat, tileIdx: nat, a: seq<SliceParam>, b: seq<SliceParam>)
    requires g.Valid() && Rest(g, pos, i, tileIdx, a) && Rest(g, pos, i, tileIdx, b) && |a| == |b|
    ensures a == b
  {
    hide Shares, CtuRows, Rest, Placed;
    forall k | 0 <= k < |a|
      ensures a[k] == b[k]
    {
      RestAt(g, pos, i, tileIdx, a, k);
      RestAt(g, pos, i, tileIdx, b, k);
    }
  }

  /** So the parameters are determined by the list of addresses and the grid. */
  lemma {:induction false} GroupsAreUnique(g: Grid, pos: seq<nat>, i: nat, a: seq<SliceParam>, b: seq<SliceParam>)
    requires g.Valid() && Grouped(g, pos, i, a) && Grouped(g, pos, i, b) && |a| == |b|
    ensures a == b
    decreases |a|
  {
    hide GroupAt;
    if a != [] {
      var n :| 0 < n <= |a| && GroupAt(g, pos, i, a[..n]) && Grouped(g, pos, i + n, a[n..]);
      var m :| 0 < m <= |b| && GroupAt(g, pos, i, b[..m]) && Grouped(g, pos, i + m, b[m..]);
      GroupIsUnique(g, pos, i, a[..n], b[..m]);
      assert n == |a[..n]| && m == |b[..m]|;
      GroupsAreUnique(g, pos, i + n, a[n..], b[n..]);
      assert a == a[..n] + a[n..] && b == b[..n] + b[n..];
    }
  }

  /** Slices as the parameters count them: a slice of several tiles is one, the others are counted by tile. */
  function Counted(slices: seq<SliceParam>): nat {
    if slices == [] then 0
    else
      var s := slices[0];
      (if Single(s) then s.numSlicesInTile else 1) + Counted(slices[1..])
  }

  lemma {:induction false} CountedConcat(a: seq<SliceParam>, b: seq<SliceParam>)
    ensures Counted(a + b) == Counted(a) + Counted(b)
  {
    if a == [] {
      assert a + b == b;
    } else {
      CountedConcat(a[1..], b);
      assert (a + b)[1..] == a[1..] + b;
    }
  }

  lemma {:induction false} CountedRest(g: Grid, pos: seq<nat>, i: nat, tileIdx: nat, more: seq<SliceParam>)
    requires g.Valid() && Rest(g, pos, i, tileIdx, more)
    ensures Counted(more) == 0
    decreases |more|
  {
    hide SharedAt;
    if more != [] {
      SharedIsPlain(g, pos, i, tileIdx, more[0]);
      forall k | 0 <= k < |more[1..]|
        ensures SharedAt(g, pos, i + 1 + k, tileIdx, more[1..][k])
      {
        assert SharedAt(g, pos, i + (k + 1), tileIdx, more[k + 1]);
        assert i + 1 + k == i + (k + 1);
      }
      CountedRest(g, pos, i + 1, tileIdx, more[1..]);
    }
  }

  lemma SharedIsPlain(g: Grid, pos: seq<nat>, n: nat, tileIdx: nat, s: SliceParam)
    requires g.Valid() && SharedAt(g, pos, n, tileIdx, s)
    ensures Single(s) && s.numSlicesInTile == 0
  {
  }

  lemma CountedGroup(g: Grid, pos: seq<nat>, i: nat, group: seq<SliceParam>)
    requires g.Valid() && GroupAt(g, pos, i, group)
    ensures Counted(group) == |group|
  {
    hide GroupAt, Rest, Shares;
    GroupMeans(g, pos, i, group);
    CountedRest(g, pos, i + 1, group[0].tileIdx, group[1..]);
  }

  /** Every slice is counted once. */
  lemma {:induction false} EverySliceCounted(g: Grid, pos: seq<nat>, i: nat, slices: seq<SliceParam>)
    requires g.Valid() && Grouped(g, pos, i, slices)
    ensures Counted(slices) == |slices|
    decreases |slices|
  {
    hide GroupAt, Counted;
    if slices == [] {
      assert Counted([]) == 0 by { CountedNone(); }
    } else {
      var n :| 0 < n <= |slices| && GroupAt(g, pos, i, slices[..n]) && Grouped(g, pos, i + n, slices[n..]);
      CountedGroup(g, pos, i, slices[..n]);
      EverySliceCounted(g, pos, i + n, slices[n..]);
      CountedConcat(slices[..n], slices[n..]);
      assert slices == slices[..n] + slices[n..];
    }
  }

  lemma CountedNone()
    ensures Counted([]) == 0
  {
  }

  // ---- the pass on the generated list ----

  /** The list is the one the generator produces. */
  ghost predicate Generated(g: Grid, w: nat, h: nat, pos: seq<nat>)
    requires g.Valid()
  {
    w > 0 && h > 0 && (forall r :: r in Slices(g, w, h) ==> Inside(g, r)) && pos == Positions(g, Slices(g, w, h))
  }

  lemma GeneratedAt(g: Grid, w: nat, h: nat, pos: seq<nat>, k: nat)
    requires g.Valid() && Generated(g, w, h, pos) && 2 * k + 1 < |pos|
    ensures |pos| == 2 * |Slices(g, w, h)| && Inside(g, Slices(g, w, h)[k])
    ensures InPicture(g, pos[2 * k]) && InPicture(g, pos[2 * k + 1])
    ensures var r := Slices(g, w, h)[k];
            && Locate(g, pos[2 * k], pos[2 * k + 1])
            == Location(g.colBd[r.left], g.rowBd[r.top], g.colBd[r.right + 1] - 1,
                        g.rowBd[r.bottom + 1] - 1, r.left, r.top, r.right, r.bottom)
    ensures var r := Slices(g, w, h)[k]; StartTile(g, pos[2 * k]) == Raster(g.Cols(), r.left, r.top)
  {
    hide InPicture, Raster, Slices, Corners, ValidBoundaries, TileOf, Inside, Positions;
    PositionsAt(g, Slices(g, w, h), k);
    LocateCorners(g, Slices(g, w, h)[k]);
  }

  lemma GeneratedNext(g: Grid, w: nat, h: nat, pos: seq<nat>, k: nat)
    requires g.Valid() && Generated(g, w, h, pos) && 2 * k + 1 < |pos| && g.Cols() * g.Rows() < WORD
    ensures Inside(g, Slices(g, w, h)[k]) && AnotherTile(g, pos, k + 1, Expected(g, Slices(g, w, h)[k]).tileIdx)
  {
    hide *;
    GeneratedAt(g, w, h, pos, k);
    GeneratedSizes(g, w, h, pos);
    if 2 * (k + 1) + 1 < |pos| {
      GeneratedAt(g, w, h, pos, k + 1);
      Neighbours(g, w, h, k);
      ExpectedTile(g, Slices(g, w, h)[k + 1]);
    }
    AnotherTileFrom(g, pos, k + 1, Expected(g, Slices(g, w, h)[k]).tileIdx);
  }

  lemma GeneratedSizes(g: Grid, w: nat, h: nat, pos: seq<nat>)
    requires g.Valid() && Generated(g, w, h, pos)
    ensures w > 0 && h > 0
  {
  }

  lemma ExpectedTile(g: Grid, r: Rect)
    requires g.Valid() && Inside(g, r)
    ensures Expected(g, r).tileIdx == Raster(g.Cols(), r.left, r.top)
  {
  }

  lemma AnotherTileFrom(g: Grid, pos: seq<nat>, i: nat, tileIdx: nat)
    requires g.Valid()
    requires 2 * i + 1 < |pos| ==> InPicture(g, pos[2 * i]) && InPicture(g, pos[2 * i + 1])
    requires 2 * i + 1 < |pos| ==> StartTile(g, pos[2 * i]) != tileIdx
    ensures AnotherTile(g, pos, i, tileIdx)
  {
  }

  lemma GeneratedHead(g: Grid, w: nat, h: nat, pos: seq<nat>, k: nat, s: SliceParam)
    requires g.Valid() && Generated(g, w, h, pos) && 2 * k + 1 < |pos|
    requires g.Cols() < WORD && g.Rows() < WORD && g.PicHeight() < WORD && Placed(g, s, pos[2 * k], pos[2 * k + 1])
    ensures InPicture(g, pos[2 * k]) && InPicture(g, pos[2 * k + 1]) && Inside(g, Slices(g, w, h)[k])
    ensures Aligned(g, Locate(g, pos[2 * k], pos[2 * k + 1]))
    ensures Expected(g, Slices(g, w, h)[k]) == Finished(s, Locate(g, pos[2 * k], pos[2 * k + 1]), 1)
  {
    hide InPicture, Raster, Slices, Positions, TileOf, ValidBoundaries, Locate, Span, Expected;
    GeneratedAt(g, w, h, pos, k);
    var r := Slices(g, w, h)[k];
    ExpectedIsFinished(g, r, s, Locate(g, pos[2 * k], pos[2 * k + 1]));
  }

  lemma ExpectedIsFinished(g: Grid, r: Rect, s: SliceParam, l: Location)
    requires g.Valid() && Inside(g, r) && g.Cols() < WORD && g.Rows() < WORD && g.PicHeight() < WORD
    requires s.widthInTiles == Span(r.left, r.right) && s.heightInTiles == Span(r.top, r.bottom)
    requires s.tileIdx == Raster(g.Cols(), r.left, r.top)
    requires l.startCtuY == g.rowBd[r.top] && l.stopCtuY == g.rowBd[r.bottom + 1] - 1
    ensures Expected(g, r) == Finished(s, l, 1)
  {
    hide Raster;
    Monotone(g.rowBd, r.bottom + 1, |g.rowBd| - 1);
    SpanNotEmpty(g.rowBd, r.top, r.bottom);
    hide ValidBoundaries;
    SpanIsExact(r.left, r.right);
    SpanIsExact(r.top, r.bottom);
    SpanIsExact(l.startCtuY, l.stopCtuY);
  }

  lemma SpanIsExact(first: nat, last: nat)
    requires first <= last < WORD - 1
    ensures Span(first, last) == last - first + 1
  {
  }

  /** The slice at index i and those after it within the same tile. */
  method NextGroup(g: Grid, pos: seq<nat>, i: nat, ghost w: nat, ghost h: nat)
    returns (ok: bool, aligned: bool, group: seq<SliceParam>)
    requires g.Valid() && 2 * i + 1 < |pos| && w > 0 && h > 0
    requires g.Cols() * g.Rows() < WORD && g.Cols() < WORD && g.Rows() < WORD && g.PicHeight() < WORD
    ensures ok ==> GroupAt(g, pos, i, group) && InTile(g, pos, i, group[0].tileIdx, group)
    ensures ok ==> (aligned <==> AlignedAt(g, pos, i))
    ensures Generated(g, w, h, pos) ==>
      ok && aligned && Inside(g, Slices(g, w, h)[i]) && group == [Expected(g, Slices(g, w, h)[i])]
  {
    hide *;
    var l, s;
    aligned, group := false, [];
    ok, l, s := SliceAt(g, pos, i);
    if Generated(g, w, h, pos) {
      GeneratedAt(g, w, h, pos, i);
    }
    if !ok {
      return;
    }
    LocatedTiles(g, pos[2 * i], pos[2 * i + 1]);
    aligned := Aligned(g, l);
    AlignedFound(g, pos, i, l);
    var more: seq<SliceParam> := [];
    var tileIdx := s.tileIdx;
    if Generated(g, w, h, pos) {
      GeneratedHead(g, w, h, pos, i, s);
      GeneratedNext(g, w, h, pos, i);
      FinishedTile(s, l, 1);
    }
    if Single(s) {
      ok, more := RestOfTile(g, pos, i + 1, tileIdx);
      if Generated(g, w, h, pos) {
        NotShared(g, pos, i + 1, tileIdx, more);
      }
      RestWithin(g, pos, i + 1, tileIdx, more);
      RestIsInTile(g, pos, i + 1, tileIdx, more);
    } else {
      NothingMore(g, pos, i + 1, tileIdx);
    }
    var head := Finished(s, l, 1 + |more|);
    FinishedIsPlaced(g, s, l, 1 + |more|, pos[2 * i], pos[2 * i + 1]);
    GroupInTile(g, pos, i, head, more);
    group := [head] + more;
    GroupFound(g, pos, i, s, l, more);
  }

  lemma AlignedFound(g: Grid, pos: seq<nat>, i: nat, l: Location)
    requires g.Valid() && 2 * i + 1 < |pos| && InPicture(g, pos[2 * i]) && InPicture(g, pos[2 * i + 1])
    requires l == Locate(g, pos[2 * i], pos[2 * i + 1])
    ensures l.startTileX < g.Cols() && l.stopTileX < g.Cols() && l.startTileY < g.Rows() && l.stopTileY < g.Rows()
    ensures Aligned(g, l) <==> AlignedAt(g, pos, i)
  {
    LocatedTiles(g, pos[2 * i], pos[2 * i + 1]);
    hide InPicture, Locate, Aligned;
  }

  lemma RestWithin(g: Grid, pos: seq<nat>, i: nat, tileIdx: nat, more: seq<SliceParam>)
    requires g.Valid() && Rest(g, pos, i, tileIdx, more) && 2 * i <= |pos|
    ensures 2 * (i + |more|) <= |pos|
  {
    hide Rest, Shares, CtuRows, Placed;
    if more != [] {
      RestAt(g, pos, i, tileIdx, more, |more| - 1);
    }
  }

  lemma GroupFound(g: Grid, pos: seq<nat>, i: nat, s: SliceParam, l: Location, more: seq<SliceParam>)
    requires g.Valid() && 2 * (i + 1 + |more|) <= |pos| && Placed(g, s, pos[2 * i], pos[2 * i + 1])
    requires l == Locate(g, pos[2 * i], pos[2 * i + 1])
    requires if Single(s)
             then Rest(g, pos, i + 1, s.tileIdx, more) && !Shares(g, pos, i + 1 + |more|, s.tileIdx)
             else more == []
    ensures GroupAt(g, pos, i, [Finished(s, l, 1 + |more|)] + more)
  {
    hide Shares, Rest, InPicture;
    assert ([Finished(s, l, 1 + |more|)] + more)[1..] == more;
  }

  lemma FinishedTile(s: SliceParam, l: Location, count: nat)
    ensures Finished(s, l, count).tileIdx == s.tileIdx
  {
  }

  lemma LocatedTiles(g: Grid, start: nat, stop: nat)
    requires g.Valid() && InPicture(g, start) && InPicture(g, stop)
    ensures var l := Locate(g, start, stop);
            && l.startTileX < g.Cols() && l.stopTileX < g.Cols() && l.startTileY < g.Rows() && l.stopTileY < g.Rows()
  {
  }

  lemma NothingMore(g: Grid, pos: seq<nat>, i: nat, tileIdx: nat)
    requires g.Valid() && 2 * i <= |pos|
    ensures InTile(g, pos, i, tileIdx, [])
  {
  }

  lemma FinishedIsPlaced(g: Grid, s: SliceParam, l: Location, count: nat, start: nat, stop: nat)
    requires g.Valid() && Placed(g, s, start, stop)
    ensures Placed(g, Finished(s, l, count), start, stop) && Finished(s, l, count).tileIdx == s.tileIdx
  {
  }

  lemma GroupInTile(g: Grid, pos: seq<nat>, i: nat, head: SliceParam, more: seq<SliceParam>)
    requires g.Valid() && 2 * i + 1 < |pos| && Placed(g, head, pos[2 * i], pos[2 * i + 1])
    requires InTile(g, pos, i + 1, head.tileIdx, more)
    ensures InTile(g, pos, i, head.tileIdx, [head] + more)
  {
    hide Placed;
  }

  /** The slices so far end with a whole group. */
  ghost predicate Ended(g: Grid, pos: seq<nat>, slices: seq<SliceParam>)
    requires g.Valid()
  {
    slices != [] && Single(slices[|slices| - 1]) ==> !Shares(g, pos, |slices|, slices[|slices| - 1].tileIdx)
  }

  /** Within a group only the first slice starts one. */
  lemma GroupInside(g: Grid, pos: seq<nat>, i: nat, group: seq<SliceParam>, k: nat)
    requires g.Valid() && GroupAt(g, pos, i, group) && 0 < k < |group|
    ensures Single(group[0]) && Single(group[k]) && group[k].tileIdx == group[0].tileIdx
  {
    hide GroupAt, Rest, Shares, Placed, CtuRows;
    GroupMeans(g, pos, i, group);
    RestAt(g, pos, i + 1, group[0].tileIdx, group[1..], k - 1);
  }

  lemma GroupEnds(g: Grid, pos: seq<nat>, i: nat, slices: seq<SliceParam>, group: seq<SliceParam>)
    requires g.Valid() && GroupAt(g, pos, i, group) && |slices| == i
    ensures Ended(g, pos, slices + group)
  {
    hide GroupAt, Shares;
    GroupMeans(g, pos, i, group);
    var n := |group| - 1;
    if n > 0 {
      GroupInside(g, pos, i, group, n);
    }
    assert (slices + group)[|slices + group| - 1] == group[n] && |slices + group| == i + |group|;
  }

  /** The first slice of the next group starts one. */
  lemma GroupStarts(g: Grid, pos: seq<nat>, slices: seq<SliceParam>, group: seq<SliceParam>)
    requires g.Valid() && Ended(g, pos, slices) && GroupAt(g, pos, |slices|, group)
    ensures Starts(slices + group, |slices|)
  {
    var n, head := |slices|, group[0];
    hide Shares, Rest, Placed, CtuRows;
    if n > 0 {
      SharesExactly(g, pos, n, slices[n - 1].tileIdx, Locate(g, pos[2 * n], pos[2 * n + 1]), head);
    }
  }

  /** Where groups start in a longer list. */
  lemma StartsAppended(g: Grid, pos: seq<nat>, slices: seq<SliceParam>, group: seq<SliceParam>, k: nat)
    requires g.Valid() && Ended(g, pos, slices) && GroupAt(g, pos, |slices|, group) && k < |slices + group|
    ensures Starts(slices + group, k) <==> (k < |slices| && Starts(slices, k)) || k == |slices|
  {
    hide GroupAt, Ended;
    if k == |slices| {
      GroupStarts(g, pos, slices, group);
    } else if k > |slices| {
      GroupInside(g, pos, |slices|, group, k - |slices|);
      if k - 1 > |slices| {
        GroupInside(g, pos, |slices|, group, k - 1 - |slices|);
      }
    }
  }

  lemma DeviatesAppended(g: Grid, pos: seq<nat>, slices: seq<SliceParam>, group: seq<SliceParam>)
    requires g.Valid() && Ended(g, pos, slices) && GroupAt(g, pos, |slices|, group)
    ensures group != []
    ensures SomeDeviates(g.Cols(), slices + group) <==>
            SomeDeviates(g.Cols(), slices) ||
            (slices != [] && Predicted(g.Cols(), slices[|slices| - 1]) != group[0].tileIdx)
  {
    GroupNotEmpty(g, pos, |slices|, group);
    var all, n := slices + group, |slices|;
    hide GroupAt, Ended, Predicted, Starts;
    forall k: nat | k < |all|
      ensures Deviates(g.Cols(), all, k) <==>
              Deviates(g.Cols(), slices, k) ||
              (k == n && n > 0 && Predicted(g.Cols(), slices[n - 1]) != group[0].tileIdx)
    {
      StartsAppended(g, pos, slices, group, k);
    }
    if SomeDeviates(g.Cols(), slices) {
      var k: nat :| Deviates(g.Cols(), slices, k);
      assert Deviates(g.Cols(), all, k);
    }
    if n > 0 && Predicted(g.Cols(), slices[n - 1]) != group[0].tileIdx {
      assert Deviates(g.Cols(), all, n);
    }
  }

  lemma AlignedAppended(g: Grid, pos: seq<nat>, slices: seq<SliceParam>, group: seq<SliceParam>)
    requires g.Valid() && Ended(g, pos, slices) && GroupAt(g, pos, |slices|, group)
    ensures StartsAligned(g, pos, slices + group) <==>
            StartsAligned(g, pos, slices) && AlignedAt(g, pos, |slices|)
  {
    GroupNotEmpty(g, pos, |slices|, group);
    hide GroupAt, Ended, Starts, AlignedAt;
    forall k: nat | k < |slices + group|
      ensures Starts(slices + group, k) <==> (k < |slices| && Starts(slices, k)) || k == |slices|
    {
      StartsAppended(g, pos, slices, group, k);
    }
  }

  lemma PlacedAppended(g: Grid, pos: seq<nat>, slices: seq<SliceParam>, group: seq<SliceParam>)
    requires g.Valid() && AllPlaced(g, pos, slices) && |group| > 0
    requires InTile(g, pos, |slices|, group[0].tileIdx, group)
    ensures AllPlaced(g, pos, slices + group)
  {
    hide Placed;
  }

  /** The slices so far are the generator's. */
  ghost predicate Follows(g: Grid, w: nat, h: nat, slices: seq<SliceParam>)
    requires g.Valid() && w > 0 && h > 0
  {
    |slices| <= |Slices(g, w, h)| && forall k :: 0 <= k < |slices| ==>
      Inside(g, Slices(g, w, h)[k]) && slices[k] == Expected(g, Slices(g, w, h)[k])
  }

  /** The pass: every slice is placed by its corners, slices within one tile are counted and measured together,
      and on the generator's list the flag is false and nothing is reported. The flag is set exactly if some slice
      that starts a group is not where the slice before predicts it. Nothing is reported exactly if the whole list
      is used and all slices that start a group are aligned. */
  method SetSliceParameters(g: Grid, given: seq<nat>, ghost w: nat, ghost h: nat)
    returns (slices: seq<SliceParam>, needTileIdxDelta: bool, confirmed: bool)
    requires g.Valid() && w > 0 && h > 0
    requires g.Cols() * g.Rows() < WORD && g.Cols() < WORD && g.Rows() < WORD && g.PicHeight() < WORD
    ensures AllPlaced(g, Listed(g, given), slices) && Grouped(g, Listed(g, given), 0, slices)
    ensures confirmed <==> 2 * |slices| == |Listed(g, given)| && StartsAligned(g, Listed(g, given), slices)
    ensures needTileIdxDelta <==> SomeDeviates(g.Cols(), slices)
    ensures !needTileIdxDelta ==> AllPredicted(g.Cols(), slices)
    ensures Generated(g, w, h, Listed(g, given)) ==>
      confirmed && !needTileIdxDelta && |slices| == |Slices(g, w, h)| && Follows(g, w, h, slices)
  {
    var pos := Listed(g, given);
    hide *;
    slices, needTileIdxDelta, confirmed := [], false, |pos| % 2 == 0;
    SoFarNone(g, w, h, pos, confirmed);
    while |slices| < |pos| / 2
      invariant |slices| <= |pos| / 2 && SoFar(g, pos, w, h, slices, needTileIdxDelta, confirmed)
      decreases |pos| - |slices|
    {
      var ok, aligned, group := NextGroup(g, pos, |slices|, w, h);
      if !ok {
        SoFarMeans(g, pos, w, h, slices, needTileIdxDelta, confirmed);
        confirmed := false;
        return;
      }
      GroupNotEmpty(g, pos, |slices|, group);
      SoFarStep(g, pos, w, h, slices, needTileIdxDelta, confirmed, group, aligned);
      if slices != [] && !needTileIdxDelta && Predicted(g.Cols(), slices[|slices| - 1]) != group[0].tileIdx {
        needTileIdxDelta := true;
      }
      confirmed := confirmed && aligned;
      slices := slices + group;
      SoFarMeans(g, pos, w, h, slices, needTileIdxDelta, confirmed);
    }
    SoFarMeans(g, pos, w, h, slices, needTileIdxDelta, confirmed);
    EvenLength(|pos|, |slices|);
  }

  lemma EvenLength(n: nat, half: nat)
    requires half == n / 2
    ensures n % 2 == 0 <==> 2 * half == n
  {
  }

  /** What holds between two groups. */
  ghost predicate SoFar(g: Grid, pos: seq<nat>, w: nat, h: nat, slices: seq<SliceParam>, needTileIdxDelta: bool,
                        confirmed: bool)
    requires g.Valid() && w > 0 && h > 0
  {
    && AllPlaced(g, pos, slices) && Grouped(g, pos, 0, slices) && Ended(g, pos, slices)
    && (needTileIdxDelta <==> SomeDeviates(g.Cols(), slices))
    && (confirmed <==> |pos| % 2 == 0 && StartsAligned(g, pos, slices))
    && (Generated(g, w, h, pos) ==> confirmed && !needTileIdxDelta && Follows(g, w, h, slices))
  }

  lemma SoFarNone(g: Grid, w: nat, h: nat, pos: seq<nat>, confirmed: bool)
    requires g.Valid() && w > 0 && h > 0 && confirmed == (|pos| % 2 == 0)
    ensures SoFar(g, pos, w, h, [], false, confirmed)
  {
    NoSlices(g, w, h, pos);
    if Generated(g, w, h, pos) {
      GeneratedLength(g, w, h, pos);
    }
  }

  lemma SoFarMeans(g: Grid, pos: seq<nat>, w: nat, h: nat, slices: seq<SliceParam>, needTileIdxDelta: bool,
                   confirmed: bool)
    requires g.Valid() && w > 0 && h > 0 && SoFar(g, pos, w, h, slices, needTileIdxDelta, confirmed)
    ensures AllPlaced(g, pos, slices) && Grouped(g, pos, 0, slices) && |slices| <= |pos| / 2
    ensures needTileIdxDelta <==> SomeDeviates(g.Cols(), slices)
    ensures !needTileIdxDelta ==> AllPredicted(g.Cols(), slices)
    ensures confirmed <==> |pos| % 2 == 0 && StartsAligned(g, pos, slices)
    ensures Generated(g, w, h, pos) ==>
      confirmed && !needTileIdxDelta && Follows(g, w, h, slices) && |pos| == 2 * |Slices(g, w, h)|
  {
    hide Grouped, SomeDeviates, StartsAligned, AllPredicted, Follows, Generated, Placed, Ended;
    PlacedWithin(g, pos, slices);
    if !needTileIdxDelta {
      NoneDeviates(g.Cols(), slices);
    }
    if Generated(g, w, h, pos) {
      GeneratedLength(g, w, h, pos);
    }
  }

  lemma SoFarStep(g: Grid, pos: seq<nat>, w: nat, h: nat, slices: seq<SliceParam>, needTileIdxDelta: bool,
                  confirmed: bool, group: seq<SliceParam>, aligned: bool)
    requires g.Valid() && w > 0 && h > 0 && SoFar(g, pos, w, h, slices, needTileIdxDelta, confirmed)
    requires g.Cols() * g.Rows() < WORD && |slices| < |pos| / 2 && group != []
    requires aligned <==> AlignedAt(g, pos, |slices|)
    requires GroupAt(g, pos, |slices|, group) && InTile(g, pos, |slices|, group[0].tileIdx, group)
    requires Generated(g, w, h, pos) ==>
      && aligned && |slices| < |Slices(g, w, h)| && Inside(g, Slices(g, w, h)[|slices|])
      && group == [Expected(g, Slices(g, w, h)[|slices|])]
    ensures var missed := slices != [] && Predicted(g.Cols(), slices[|slices| - 1]) != group[0].tileIdx;
            SoFar(g, pos, w, h, slices + group, needTileIdxDelta || missed, confirmed && aligned)
  {
    hide Grouped, SomeDeviates, StartsAligned, AlignedAt, Follows, Generated, AllPlaced, GroupAt, InTile, Predicted,
         Expected, Slices, Inside, Ended;
    if Generated(g, w, h, pos) {
      FollowsOn(g, w, h, slices, group[0]);
    }
    PlacedAppended(g, pos, slices, group);
    GroupedSnoc(g, pos, 0, slices, group);
    GroupEnds(g, pos, |slices|, slices, group);
    DeviatesAppended(g, pos, slices, group);
    AlignedAppended(g, pos, slices, group);
  }

  lemma NoSlices(g: Grid, w: nat, h: nat, pos: seq<nat>)
    requires g.Valid() && w > 0 && h > 0
    ensures AllPlaced(g, pos, []) && Follows(g, w, h, []) && Grouped(g, pos, 0, []) && Ended(g, pos, [])
    ensures !SomeDeviates(g.Cols(), []) && StartsAligned(g, pos, [])
  {
  }

  lemma GeneratedLength(g: Grid, w: nat, h: nat, pos: seq<nat>)
    requires g.Valid() && Generated(g, w, h, pos)
    ensures |pos| == 2 * |Slices(g, w, h)|
  {
    hide Slices, Positions, Inside;
  }

  lemma PlacedWithin(g: Grid, pos: seq<nat>, slices: seq<SliceParam>)
    requires g.Valid() && AllPlaced(g, pos, slices)
    ensures |slices| <= |pos| / 2
  {
  }

  lemma FollowsOn(g: Grid, w: nat, h: nat, slices: seq<SliceParam>, s: SliceParam)
    requires g.Valid() && w > 0 && h > 0 && g.Cols() * g.Rows() < WORD
    requires Follows(g, w, h, slices) && |slices| < |Slices(g, w, h)|
    requires Inside(g, Slices(g, w, h)[|slices|]) && s == Expected(g, Slices(g, w, h)[|slices|])
    ensures Follows(g, w, h, slices + [s])
    ensures slices != [] ==> Predicted(g.Cols(), slices[|slices| - 1]) == s.tileIdx
  {
    hide Slices, Expected, Predicted, ValidBoundaries;
    if slices != [] {
      Neighbours(g, w, h, |slices| - 1);
    }
  }
}

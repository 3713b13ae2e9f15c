/** Border extension of a picture buffer by pointer walking, and the coordinate clamping it amounts to. */
module Border {
  import opened Arith

  /** A buffer: the picture's first sample, its line stride, its size, and the margins around it. */
  datatype Buf = Buf(origin: int, stride: nat, width: nat, height: nat, marginX: nat, marginY: nat) {
    /** The margins do not reach into the neighbouring lines. */
    predicate RoomInLine() {
      width + 2 * marginX <= stride
    }
  }

  /** Where the sample at column x of line y lies. */
  function Index(b: Buf, x: int, y: int): int {
    b.origin + y * b.stride + x
  }

  /** The columns of a line, the left margin first. */
  predicate InLine(b: Buf, x: int) {
    0 <= x + b.marginX < b.stride
  }

  function Left(b: Buf): int {
    0 - b.marginX
  }

  function Top(b: Buf): int {
    0 - b.marginY
  }

  predicate InPicture(b: Buf, x: int, y: int) {
    0 <= x < b.width && 0 <= y < b.height
  }

  predicate InExtended(b: Buf, x: int, y: int) {
    Left(b) <= x < b.width + b.marginX && Top(b) <= y < b.height + b.marginY
  }

  /** The picture and its margins lie in the buffer. */
  ghost predicate Fits(b: Buf, n: nat) {
    && b.width > 0 && b.height > 0 && b.RoomInLine()
    && 0 <= Index(b, Left(b), Top(b))
    && Index(b, b.width + b.marginX - 1, b.height + b.marginY - 1) < n
  }

  lemma CellFits(b: Buf, n: nat, x: int, y: int)
    requires Fits(b, n) && InExtended(b, x, y)
    ensures 0 <= Index(b, x, y) < n && Place(b, n, x, y)
  {
    MulLe(Top(b), y, b.stride);
    MulLe(y, b.height + b.marginY - 1, b.stride);
  }

  /** Two cells of lines are the same only if both coordinates are. */
  lemma IndexInjective(b: Buf, x1: int, y1: int, x2: int, y2: int)
    requires InLine(b, x1) && InLine(b, x2)
    ensures Index(b, x1, y1) == Index(b, x2, y2) <==> x1 == x2 && y1 == y2
  {
    RasterInjective(x1, y1, x2, y2, b.stride);
  }

  /** Every place of the buffer is a cell of some line. */
  lemma EveryPlaceIsACell(b: Buf, k: nat)
    requires b.stride > 0
    ensures var d := k - b.origin + b.marginX;
            InLine(b, d % b.stride - b.marginX) && Index(b, d % b.stride - b.marginX, d / b.stride) == k
  {
  }

  /** A cell of a line, within the buffer. */
  ghost predicate Place(b: Buf, n: nat, x: int, y: int) {
    InLine(b, x) && 0 <= Index(b, x, y) < n
  }

  function ClampX(b: Buf, x: int): int {
    if x < 0 then 0 else if x >= b.width then b.width - 1 else x
  }

  function ClampY(b: Buf, y: int): int {
    if y < 0 then 0 else if y >= b.height then b.height - 1 else y
  }

  /** How far an extension has come: lines whose sides are done and part of the next one, or lines above
      and below done and part of the next ones. */
  datatype Stage =
    | Sides(rows: nat, lo: int, hi: int, right: nat)
    | Lines(above: nat, aboveCols: nat, below: nat, belowCols: nat)

  /** The cell whose first content a cell holds at a stage. */
  function From(b: Buf, st: Stage, x: int, y: int): (int, int) {
    if !(Left(b) <= x < b.width + b.marginX) then (x, y)
    else
      match st
      case Sides(rows, lo, hi, right) =>
        if 0 <= y < rows then (ClampX(b, x), y)
        else if y == rows && lo <= x < hi then (0, y)
        else if y == rows && b.width <= x < b.width + right then (b.width - 1, y)
        else (x, y)
      case Lines(above, aboveCols, below, belowCols) =>
        if y < 0 then
          if y + above >= 0 || (y + above == -1 && x < Left(b) + aboveCols) then (ClampX(b, x), 0) else (x, y)
        else if y < b.height then (ClampX(b, x), y)
        else if y < b.height + below || (y == b.height + below && x < Left(b) + belowCols) then
        (ClampX(b, x), b.height - 1)
        else (x, y)
  }

  ghost predicate HoldsAt(b: Buf, was: seq<int>, now: seq<int>, st: Stage, x: int, y: int)
    requires |now| == |was| && Place(b, |was|, x, y)
  {
    var f := From(b, st, x, y);
    Place(b, |was|, f.0, f.1) && now[Index(b, x, y)] == was[Index(b, f.0, f.1)]
  }

  ghost predicate Holds(b: Buf, was: seq<int>, now: seq<int>, st: Stage) {
    |now| == |was| && forall x, y :: Place(b, |was|, x, y) ==> HoldsAt(b, was, now, st, x, y)
  }

  /** The next stage differs in one cell, which is copied from another. */
  ghost predicate Copied(b: Buf, st: Stage, next: Stage, x: int, y: int, sx: int, sy: int) {
    && From(b, next, x, y) == From(b, st, sx, sy)
    && forall u, v :: (u != x || v != y) ==> From(b, next, u, v) == From(b, st, u, v)
  }

  lemma CopyCellAt(b: Buf, was: seq<int>, now: seq<int>, st: Stage, next: Stage, x: int, y: int, sx: int, sy: int,
                   u: int, v: int)
    requires |now| == |was| && Place(b, |was|, x, y) && Place(b, |was|, sx, sy) && Copied(b, st, next, x, y, sx, sy)
    requires Place(b, |was|, u, v) && HoldsAt(b, was, now, st, u, v) && HoldsAt(b, was, now, st, sx, sy)
    ensures HoldsAt(b, was, now[Index(b, x, y) := now[Index(b, sx, sy)]], next, u, v)
  {
    IndexInjective(b, u, v, x, y);
    hide Index, From;
  }

  lemma CopyCell(b: Buf, was: seq<int>, now: seq<int>, st: Stage, next: Stage, x: int, y: int, sx: int, sy: int)
    requires Holds(b, was, now, st) && Place(b, |was|, x, y) && Place(b, |was|, sx, sy)
    requires Copied(b, st, next, x, y, sx, sy)
    ensures Holds(b, was, now[Index(b, x, y) := now[Index(b, sx, sy)]], next)
  {
    hide HoldsAt, Copied;
    forall u, v | Place(b, |was|, u, v)
      ensures HoldsAt(b, was, now[Index(b, x, y) := now[Index(b, sx, sy)]], next, u, v)
    {
      CopyCellAt(b, was, now, st, next, x, y, sx, sy, u, v);
    }
  }

  /** Another description of the same stage. */
  lemma SameStage(b: Buf, was: seq<int>, now: seq<int>, st: Stage, next: Stage)
    requires Holds(b, was, now, st)
    requires forall x, y :: From(b, next, x, y) == From(b, st, x, y)
    ensures Holds(b, was, now, next)
  {
    hide From, Index;
    forall x, y | Place(b, |was|, x, y)
      ensures HoldsAt(b, was, now, next, x, y)
    {
      assert HoldsAt(b, was, now, st, x, y);
    }
  }

  /** One assignment through two pointers. */
  method CopySample(b: Buf, a: array<int>, d: int, s: int, ghost was: seq<int>, ghost st: Stage, ghost next: Stage,
                    ghost x: int, ghost y: int, ghost sx: int, ghost sy: int)
    requires Holds(b, was, a[..], st) && Fits(b, |was|) && InExtended(b, x, y) && InExtended(b, sx, sy)
    requires d == Index(b, x, y) && s == Index(b, sx, sy) && Copied(b, st, next, x, y, sx, sy)
    modifies a
    ensures Holds(b, was, a[..], next)
  {
    hide *;
    HoldsLength(b, was, a[..], st);
    CellFits(b, |was|, x, y);
    CellFits(b, |was|, sx, sy);
    CopyCell(b, was, a[..], st, next, x, y, sx, sy);
    ghost var before := a[..];
    a[d] := a[s];
    assert a[..] == before[d := before[s]];
  }

  lemma HoldsLength(b: Buf, was: seq<int>, now: seq<int>, st: Stage)
    requires Holds(b, was, now, st)
    ensures |now| == |was|
  {
  }

  // ---- lines ----

  /** The cells one line down are one stride further. */
  lemma NextLine(b: Buf, x: int, y: int, lines: int)
    ensures Index(b, x, y + lines) == Index(b, x, y) + lines * b.stride
    ensures Index(b, x, y) == Index(b, 0, y) + x
  {
    assert (y + lines) * b.stride == y * b.stride + lines * b.stride;
  }

  /** A line copied with its margins to one above (up) or below the picture. */
  method CopyLine(b: Buf, a: array<int>, d: int, s: int, up: bool, above: nat, below: nat, ghost was: seq<int>)
    requires Fits(b, |was|) && Holds(b, was, a[..], Lines(above, 0, below, 0))
    requires if up then above < b.marginY else below < b.marginY
    requires d == Index(b, Left(b), if up then -1 - above else b.height + below)
    requires s == Index(b, Left(b), if up then 0 else b.height - 1)
    modifies a
    ensures Holds(b, was, a[..], if up then Lines(above + 1, 0, below, 0) else Lines(above, 0, below + 1, 0))
  {
    hide *;
    var n := b.width + 2 * b.marginX;
    LineStart(up, above, below);
    for k := 0 to n
      invariant Holds(b, was, a[..], LineStage(up, above, below, k))
    {
      CopyLineCell(b, a, d, s, up, above, below, k, was);
    }
    LineDone(b, was, a[..], up, above, below);
  }

  /** A stage with k cells of the next line done. */
  function LineStage(up: bool, above: nat, below: nat, k: nat): Stage {
    if up then Lines(above, k, below, 0) else Lines(above, 0, below, k)
  }

  lemma LineStart(up: bool, above: nat, below: nat)
    ensures LineStage(up, above, below, 0) == Lines(above, 0, below, 0)
  {
  }

  method CopyLineCell(b: Buf, a: array<int>, d: int, s: int, up: bool, above: nat, below: nat, k: nat,
                      ghost was: seq<int>)
    requires Fits(b, |was|) && Holds(b, was, a[..], LineStage(up, above, below, k))
    requires (if up then above < b.marginY else below < b.marginY) && k < b.width + 2 * b.marginX
    requires d == Index(b, Left(b), if up then -1 - above else b.height + below)
    requires s == Index(b, Left(b), if up then 0 else b.height - 1)
    modifies a
    ensures Holds(b, was, a[..], LineStage(up, above, below, k + 1))
  {
    ghost var x: int := Left(b) + k;
    ghost var y: int, sy: int := if up then -1 - above else b.height + below, if up then 0 else b.height - 1;
    assert InExtended(b, x, y) && InExtended(b, x, sy);
    NextLine(b, x, y, 0);
    NextLine(b, Left(b), y, 0);
    NextLine(b, x, sy, 0);
    NextLine(b, Left(b), sy, 0);
    LineCell(b, up, above, below, k);
    hide *;
    CopySample(b, a, d + k, s + k, was, LineStage(up, above, below, k), LineStage(up, above, below, k + 1), x, y, x,
               sy);
  }

  lemma LineDone(b: Buf, was: seq<int>, now: seq<int>, up: bool, above: nat, below: nat)
    requires Holds(b, was, now, LineStage(up, above, below, b.width + 2 * b.marginX))
    ensures Holds(b, was, now, if up then Lines(above + 1, 0, below, 0) else Lines(above, 0, below + 1, 0))
  {
    hide Holds;
    SameStage(b, was, now, LineStage(up, above, below, b.width + 2 * b.marginX),
              if up then Lines(above + 1, 0, below, 0) else Lines(above, 0, below + 1, 0));
  }

  lemma LineCell(b: Buf, up: bool, above: nat, below: nat, k: nat)
    requires k < b.width + 2 * b.marginX && b.width > 0 && b.height > 0
    ensures Copied(b, LineStage(up, above, below, k), LineStage(up, above, below, k + 1), Left(b) + k,
                   if up then -1 - above else b.height + below, Left(b) + k, if up then 0 else b.height - 1)
  {
  }

  // ---- sides ----

  /** One step outwards or inwards in a line: a cell of the left margin, then one of the right. */
  method ExtendSides(b: Buf, a: array<int>, p: int, y: nat, x: int, lo: int, hi: int, right: nat, ghost was: seq<int>)
    returns (ghost done: Stage)
    requires Fits(b, |was|) && Holds(b, was, a[..], Sides(y, lo, hi, right)) && p == Index(b, 0, y) && y < b.height
    requires Left(b) <= lo <= hi <= 0 && right < b.marginX && Left(b) <= x < 0 && (x == hi || x == lo - 1)
    modifies a
    ensures done == Sides(y, if x == hi then lo else lo - 1, if x == hi then hi + 1 else hi, right + 1)
    ensures Holds(b, was, a[..], done)
  {
    ghost var lo1: int, hi1: int := if x == hi then lo else lo - 1, if x == hi then hi + 1 else hi;
    SideCells(b, y, x, lo, hi, right);
    assert InExtended(b, x, y) && InExtended(b, 0, y);
    assert InExtended(b, b.width + right, y) && InExtended(b, b.width - 1, y);
    NextLine(b, x, y, 0);
    NextLine(b, b.width + right, y, 0);
    NextLine(b, b.width - 1, y, 0);
    hide *;
    CopySample(b, a, p + x, p, was, Sides(y, lo, hi, right), Sides(y, lo1, hi1, right), x, y, 0, y);
    CopySample(b, a, p + b.width + right, p + b.width - 1, was, Sides(y, lo1, hi1, right),
               Sides(y, lo1, hi1, right + 1),
               b.width + right, y, b.width - 1, y);
    done := Sides(y, lo1, hi1, right + 1);
  }

  lemma SideCells(b: Buf, y: nat, x: int, lo: int, hi: int, right: nat)
    requires b.width > 0 && y < b.height && Left(b) <= lo <= hi <= 0 && right < b.marginX
    requires Left(b) <= x < 0 && (x == hi || x == lo - 1)
    ensures var lo1, hi1 := if x == hi then lo else lo - 1, if x == hi then hi + 1 else hi;
            && Copied(b, Sides(y, lo, hi, right), Sides(y, lo1, hi1, right), x, y, 0, y)
            && Copied(b, Sides(y, lo1, hi1, right), Sides(y, lo1, hi1, right + 1), b.width + right, y, b.width - 1, y)
  {
  }

  /** A line whose two margins are full is done. */
  lemma SidesDone(b: Buf, was: seq<int>, now: seq<int>, y: nat, start: int)
    requires b.width > 0 && Left(b) <= start <= 0 && Holds(b, was, now, Sides(y, Left(b), 0, b.marginX))
    ensures Holds(b, was, now, Sides(y + 1, start, start, 0))
  {
    hide Holds;
    SameStage(b, was, now, Sides(y, Left(b), 0, b.marginX), Sides(y + 1, start, start, 0));
  }

  lemma Untouched(b: Buf, was: seq<int>, start: int)
    requires Fits(b, |was|)
    ensures Holds(b, was, was, Sides(0, start, start, 0))
  {
  }

  lemma AllSidesDone(b: Buf, was: seq<int>, now: seq<int>, start: int)
    requires Holds(b, was, now, Sides(b.height, start, start, 0))
    ensures Holds(b, was, now, Lines(0, 0, 0, 0))
  {
    hide Holds;
    SameStage(b, was, now, Sides(b.height, start, start, 0), Lines(0, 0, 0, 0));
  }

  // ---- the result ----

  /** Every cell of the picture and its margins holds the picture's sample at the nearest position; all
      else is as before. */
  ghost predicate Extended(b: Buf, was: seq<int>, now: seq<int>) {
    && |now| == |was|
    && forall x, y :: Place(b, |was|, x, y) ==> ExtendedAt(b, was, now, x, y)
  }

  ghost predicate ExtendedAt(b: Buf, was: seq<int>, now: seq<int>, x: int, y: int)
    requires |now| == |was| && Place(b, |was|, x, y)
  {
    if InExtended(b, x, y) then
      && Place(b, |was|, ClampX(b, x), ClampY(b, y))
      && now[Index(b, x, y)] == was[Index(b, ClampX(b, x), ClampY(b, y))]
    else now[Index(b, x, y)] == was[Index(b, x, y)]
  }

  lemma ExtensionDone(b: Buf, was: seq<int>, now: seq<int>)
    requires b.width > 0 && b.height > 0 && Holds(b, was, now, Lines(b.marginY, 0, b.marginY, 0))
    ensures Extended(b, was, now)
  {
    hide Index;
    forall x, y | Place(b, |was|, x, y)
      ensures ExtendedAt(b, was, now, x, y)
    {
      assert HoldsAt(b, was, now, Lines(b.marginY, 0, b.marginY, 0), x, y);
    }
  }

  /** The picture itself is unchanged, and the whole result is determined. */
  lemma ExtensionIsUnique(b: Buf, was: seq<int>, now: seq<int>, other: seq<int>)
    requires Fits(b, |was|) && Extended(b, was, now) && Extended(b, was, other)
    ensures now == other
    ensures forall x, y :: InPicture(b, x, y) ==>
      0 <= Index(b, x, y) < |was| && now[Index(b, x, y)] == was[Index(b, x, y)]
  {
    forall k: nat | k < |was|
      ensures now[k] == other[k]
    {
      EveryPlaceIsACell(b, k);
      var d := k - b.origin + b.marginX;
      var x, y := d % b.stride - b.marginX, d / b.stride;
      assert Place(b, |was|, x, y);
      assert ExtendedAt(b, was, now, x, y) && ExtendedAt(b, was, other, x, y);
    }
    forall x, y | InPicture(b, x, y)
      ensures 0 <= Index(b, x, y) < |was| && now[Index(b, x, y)] == was[Index(b, x, y)]
    {
      CellFits(b, |was|, x, y);
      assert ExtendedAt(b, was, now, x, y);
    }
  }

  // ---- the two programs ----

  lemma Start(b: Buf, n: nat)
    requires Fits(b, n)
    ensures b.width > 0 && b.height > 0 && Left(b) == 0 - b.marginX
    ensures Index(b, 0, 0) == b.origin && Index(b, Left(b), 0) == b.origin - b.marginX
  {
  }

  /** Both margins of a line, from the left end of each. */
  method FillSides(b: Buf, a: array<int>, p: int, y: nat, ghost was: seq<int>)
    requires Fits(b, |was|) && y < b.height && p == Index(b, 0, y)
    requires Holds(b, was, a[..], Sides(y, Left(b), Left(b), 0))
    modifies a
    ensures Holds(b, was, a[..], Sides(y + 1, Left(b), Left(b), 0))
  {
    hide *;
    Start(b, |was|);
    var left: int := 0 - b.marginX;
    for x := 0 to b.marginX
      invariant Holds(b, was, a[..], Sides(y, left, left + x, x))
    {
      ghost var done := ExtendSides(b, a, p, y, left + x, left, left + x, x, was);
    }
    SidesDone(b, was, a[..], y, left);
  }

  /** Both margins of a line, from the picture outwards. */
  method FillSidesOutwards(b: Buf, a: array<int>, p: int, y: nat, ghost was: seq<int>)
    requires Fits(b, |was|) && y < b.height && p == Index(b, 0, y) && Holds(b, was, a[..], Sides(y, 0, 0, 0))
    modifies a
    ensures Holds(b, was, a[..], Sides(y + 1, 0, 0, 0))
  {
    hide *;
    Start(b, |was|);
    for j: int := 1 to b.marginX + 1
      invariant Holds(b, was, a[..], Sides(y, 1 - j, 0, j - 1))
    {
      ghost var done := ExtendSides(b, a, p, y, -j, 1 - j, 0, j - 1, was);
    }
    SidesDone(b, was, a[..], y, 0);
  }

  /** The first loop of the buffer's own method; the pointer ends below the picture. */
  method FillAllSides(b: Buf, a: array<int>, ghost was: seq<int>) returns (p: int)
    requires Fits(b, |was|) && was == a[..]
    modifies a
    ensures p == Index(b, 0, b.height) && Holds(b, was, a[..], Lines(0, 0, 0, 0))
  {
    hide *;
    p := b.origin;
    Untouched(b, was, Left(b));
    Start(b, |was|);
    for y := 0 to b.height
      invariant p == Index(b, 0, y) && Holds(b, was, a[..], Sides(y, Left(b), Left(b), 0))
    {
      FillSides(b, a, p, y, was);
      NextLine(b, 0, y, 1);
      p := p + b.stride;
    }
    AllSidesDone(b, was, a[..], Left(b));
  }

  method FillBelow(b: Buf, a: array<int>, p: int, ghost was: seq<int>)
    requires Fits(b, |was|) && p == Index(b, Left(b), b.height - 1) && Holds(b, was, a[..], Lines(0, 0, 0, 0))
    modifies a
    ensures Holds(b, was, a[..], Lines(0, 0, b.marginY, 0))
  {
    hide *;
    for y := 0 to b.marginY
      invariant Holds(b, was, a[..], Lines(0, 0, y, 0))
    {
      NextLine(b, Left(b), b.height - 1, y + 1);
      CopyLine(b, a, p + (y + 1) * b.stride, p, false, 0, y, was);
    }
  }

  method FillAbove(b: Buf, a: array<int>, p: int, ghost was: seq<int>)
    requires Fits(b, |was|) && p == Index(b, Left(b), 0) && Holds(b, was, a[..], Lines(0, 0, b.marginY, 0))
    modifies a
    ensures Holds(b, was, a[..], Lines(b.marginY, 0, b.marginY, 0))
  {
    hide *;
    for y := 0 to b.marginY
      invariant Holds(b, was, a[..], Lines(y, 0, b.marginY, 0))
    {
      LineAbove(b, y + 1);
      CopyLine(b, a, p - (y + 1) * b.stride, p, true, y, b.marginY, was);
    }
  }

  lemma LineAbove(b: Buf, n: nat)
    ensures Index(b, Left(b), 0 - n) == Index(b, Left(b), 0) - n * b.stride
  {
    NextLine(b, Left(b), 0 - n, n);
  }

  /** The size check, the sides of every line, the lines below, the lines above. */
  method ExtendBorderPel(b: Buf, a: array<int>) returns (ok: bool)
    requires b.width > 0 && b.height > 0 && (b.RoomInLine() ==> Fits(b, a.Length))
    modifies a
    ensures ok <==> b.RoomInLine()
    ensures ok ==> Extended(b, old(a[..]), a[..])
    ensures !ok ==> a[..] == old(a[..])
  {
    ok := b.width + 2 * b.marginX <= b.stride;
    if !ok {
      return;
    }
    ghost var was := a[..];
    var p := FillAllSides(b, a, was);
    NextLine(b, Left(b), b.height - 1, 1);
    NextLine(b, Left(b), b.height - 1, 0);
    NextLine(b, 0, b.height - 1, 1);
    hide Index, Holds, Fits, Extended;
    p := p - (b.stride + b.marginX);
    assert p == Index(b, Left(b), b.height - 1);
    FillBelow(b, a, p, was);
    NextLine(b, Left(b), 0, b.height - 1);
    p := p - (b.height - 1) * b.stride;
    FillAbove(b, a, p, was);
    ExtensionDone(b, was, a[..]);
  }

  method PadAllSides(b: Buf, a: array<int>, ghost was: seq<int>)
    requires Fits(b, |was|) && was == a[..]
    modifies a
    ensures Holds(b, was, a[..], Lines(0, 0, 0, 0))
  {
    hide *;
    Untouched(b, was, 0);
    Start(b, |was|);
    for i := 0 to b.height
      invariant Holds(b, was, a[..], Sides(i, 0, 0, 0))
    {
      var offset := b.stride * i;
      NextLine(b, 0, 0, i);
      FillSidesOutwards(b, a, b.origin + offset, i, was);
    }
    AllSidesDone(b, was, a[..], 0);
  }

  /** The weighted-prediction helper: no size check, sides from the inside out, lines above and below in turn. */
  method PaddingCore(b: Buf, a: array<int>)
    requires Fits(b, a.Length) && b.marginX == b.marginY
    modifies a
    ensures Extended(b, old(a[..]), a[..])
  {
    hide *;
    ghost var was := a[..];
    PadAllSides(b, a, was);
    Start(b, |was|);
    var top, bottom := b.origin - b.marginX, b.origin + b.stride * (b.height - 1) - b.marginX;
    NextLine(b, Left(b), 0, b.height - 1);
    for i: int := 1 to b.marginX + 1
      invariant Holds(b, was, a[..], Lines(i - 1, 0, i - 1, 0))
    {
      LineAbove(b, i);
      CopyLine(b, a, top - i * b.stride, top, true, i - 1, i - 1, was);
      NextLine(b, Left(b), b.height - 1, i);
      CopyLine(b, a, bottom + i * b.stride, bottom, false, i, i - 1, was);
    }
    ExtensionDone(b, was, a[..]);
  }
}

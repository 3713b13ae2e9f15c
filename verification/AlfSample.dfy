/** One sample of the adaptive loop filter: what the kernel computes, and what that means. */
module AlfSample {
  import opened AlfClassify
  import opened AlfFilter

  /** Which filter runs: 7x7 with a class for each block, or 5x5 with one set of coefficients. */
  datatype Kernel =
    | Luma(classes: (nat, nat) -> Class, coeffs: seq<int>, clips: seq<int>)
    | Chroma(coef: seq<int>, clip: seq<int>)
  {
    ghost predicate Valid() {
      match this
      case Luma(classes, coeffs, clips) =>
        |coeffs| == |clips| && ValidClips(clips) && forall y, x :: 13 * classes(y, x).classIdx + 13 <= |coeffs|
      case Chroma(coef, clip) => |coef| == |clip| == 7 && ValidClips(clip)
    }
  }

  lemma SliceClips(clips: seq<int>, from: nat, n: nat)
    requires ValidClips(clips) && from + n <= |clips|
    ensures ValidClips(clips[from..from + n])
  {
  }

  /** Next to the virtual boundary: the last row above it and the first below. */
  predicate NearBoundary(yVb: int, vbPos: int) {
    (yVb < vbPos && yVb >= vbPos - 1) || (yVb >= vbPos && yVb <= vbPos)
  }

  /** A class's part of the coefficients or clipping values. */
  function ClassPart(values: seq<int>, c: Class): (f: seq<int>)
    requires 13 * c.classIdx + 13 <= |values|
    ensures |f| == 13
  {
    values[13 * c.classIdx..13 * c.classIdx + 13]
  }

  /** The coefficients or clipping values a block uses. */
  function BlockFilter(k: Kernel, values: seq<int>, b: Block, bi: nat, bj: nat): (f: seq<int>)
    requires k.Valid() && k.Luma? && |values| == |k.coeffs|
    ensures |f| == 13
  {
    var c := k.classes(b.dstY + 4 * bi, b.dstX + 4 * bj);
    Oriented7(c.transposeIdx, ClassPart(values, c))
  }

  lemma BlockClipsValid(k: Kernel, b: Block, bi: nat, bj: nat)
    requires k.Valid() && k.Luma?
    ensures ValidClips(BlockFilter(k, k.clips, b, bi, bj))
  {
    hide Oriented7, ValidClips;
    var c := k.classes(b.dstY + 4 * bi, b.dstX + 4 * bj);
    SliceClips(k.clips, 13 * c.classIdx, 13);
    OrientedClips7(c.transposeIdx, ClassPart(k.clips, c));
  }

  /** The tap sum at column x of the source, from these rows. */
  function TapSum(k: Kernel, b: Block, img: Image, bi: nat, bj: nat, x: int, r: Rows): int
    requires k.Valid()
  {
    match k
    case Luma(_, coeffs, clips) =>
      BlockClipsValid(k, b, bi, bj);
      Sum7(img, BlockFilter(k, coeffs, b, bi, bj), BlockFilter(k, clips, b, bi, bj), x, r)
    case Chroma(coef, clip) => Sum5(img, coef, clip, x, r)
  }

  /** The filtered sample of a destination cell (y, x) in block (bi, bj). */
  function FilteredSample(k: Kernel, b: Block, img: Image, low: int, high: int, bi: nat, bj: nat, y: nat, x: nat): int
    requires k.Valid() && b.Valid() && low <= high && b.dstY <= y && b.dstX <= x
  {
    var yVb, srcX, srcY := y % b.ctuHeight, b.posX + (x - b.dstX), b.posY + (y - b.dstY);
    var r := Substituted(srcY, yVb, b.vbPos, k.Chroma?);
    Finish(TapSum(k, b, img, bi, bj, srcX, r), NearBoundary(yVb, b.vbPos), img(srcX, r.r0), low, high)
  }

  lemma FilteredIs(k: Kernel, b: Block, img: Image, low: int, high: int, bi: nat, bj: nat, y: nat, x: nat, srcX: int,
                   srcY: int, r: Rows)
    requires k.Valid() && b.Valid() && low <= high && b.dstY <= y && b.dstX <= x
    requires srcX == b.posX + (x - b.dstX) && srcY == b.posY + (y - b.dstY)
    requires r == Substituted(srcY, y % b.ctuHeight, b.vbPos, k.Chroma?)
    ensures FilteredSample(k, b, img, low, high, bi, bj, y, x)
         == Finish(TapSum(k, b, img, bi, bj, srcX, r), NearBoundary(y % b.ctuHeight, b.vbPos), img(srcX, r.r0), low,
                   high)
  {
    hide Substituted, TapSum, NearBoundary, Finish, Kernel.Valid;
  }

  /** A picture that is constant where the filter reads is unchanged. */
  lemma ConstantIsFixed(k: Kernel, b: Block, img: Image, v: int, low: int, high: int, bi: nat, bj: nat, y: nat, x: nat)
    requires k.Valid() && b.Valid() && low <= v <= high && b.dstY <= y && b.dstX <= x
    requires ConstantAround(img, v, b.posX + (x - b.dstX), b.posY + (y - b.dstY))
    ensures FilteredSample(k, b, img, low, high, bi, bj, y, x) == v
  {
    hide *;
    PositiveHeight(b);
    var yVb, srcX, srcY := y % b.ctuHeight, b.posX + (x - b.dstX), b.posY + (y - b.dstY);
    var r := Substituted(srcY, yVb, b.vbPos, k.Chroma?);
    RowsAreNear(srcY, yVb, b.vbPos, k.Chroma?);
    ConstantTaps(k, b, img, v, bi, bj, srcX, srcY, r);
    FilteredIs(k, b, img, low, high, bi, bj, y, x, srcX, srcY, r);
    NothingAdded(NearBoundary(yVb, b.vbPos), v, low, high);
  }

  lemma PositiveHeight(b: Block)
    requires b.Valid()
    ensures b.ctuHeight > 0
  {
  }

  /** The taps of a constant picture add nothing. */
  lemma ConstantTaps(k: Kernel, b: Block, img: Image, v: int, bi: nat, bj: nat, x: int, y: int, r: Rows)
    requires k.Valid() && b.Valid() && ConstantAround(img, v, x, y) && Within(r, y)
    ensures TapSum(k, b, img, bi, bj, x, r) == 0 && img(x, r.r0) == v
  {
    hide Sum7, Sum5;
    if k.Luma? {
      BlockClipsValid(k, b, bi, bj);
      ConstantSum7(img, v, BlockFilter(k, k.coeffs, b, bi, bj), BlockFilter(k, k.clips, b, bi, bj), x, y, r);
    } else {
      ConstantSum5(img, v, k.coef, k.clip, x, y, r);
    }
  }

  lemma NothingAdded(near: bool, v: int, low: int, high: int)
    requires low <= v <= high
    ensures Finish(0, near, v, low, high) == v
  {
  }

  ghost predicate Within(r: Rows, y: int) {
    && y - 3 <= r.r0 <= y + 3 && y - 3 <= r.r1 <= y + 3 && y - 3 <= r.r2 <= y + 3 && y - 3 <= r.r3 <= y + 3
    && y - 3 <= r.r4 <= y + 3 && y - 3 <= r.r5 <= y + 3 && y - 3 <= r.r6 <= y + 3
  }

  lemma RowsAreNear(y: int, yVb: int, vbPos: int, chroma: bool)
    ensures Within(Substituted(y, yVb, vbPos, chroma), y)
  {
  }

  ghost predicate ConstantAround(img: Image, v: int, x: int, y: int) {
    forall sx, sy :: x - 3 <= sx <= x + 3 && y - 3 <= sy <= y + 3 ==> img(sx, sy) == v
  }

  lemma NoDifference(c: int, clip: int, v: int)
    requires clip >= 0
    ensures Tap(c, clip, v, v, v) == 0
  {
  }

  lemma ConstantSum7(img: Image, v: int, f: seq<int>, clip: seq<int>, x: int, y: int, r: Rows)
    requires |f| == |clip| == 13 && ValidClips(clip) && Within(r, y) && ConstantAround(img, v, x, y)
    ensures Sum7(img, f, clip, x, r) == 0
  {
    hide Tap;
    forall c: int, l: int | l >= 0
      ensures Tap(c, l, v, v, v) == 0
    {
      NoDifference(c, l, v);
    }
  }

  lemma ConstantSum5(img: Image, v: int, f: seq<int>, clip: seq<int>, x: int, y: int, r: Rows)
    requires |f| == |clip| == 7 && ValidClips(clip) && Within(r, y) && ConstantAround(img, v, x, y)
    ensures Sum5(img, f, clip, x, r) == 0
  {
    hide Tap;
    forall c: int, l: int | l >= 0
      ensures Tap(c, l, v, v, v) == 0
    {
      NoDifference(c, l, v);
    }
  }

  // ---- what a filtered sample is ----

  /** Where the coefficients of the 7x7 and of the 5x5 diamond belong; each counts for the opposite place too. */
  const OFFSETS7: seq<(int, int)> := [(0, 3), (1, 2), (0, 2), (-1, 2), (2, 1), (1, 1), (0, 1), (-1, 1), (-2, 1),
                                      (3, 0), (2, 0), (1, 0)]
  const OFFSETS5: seq<(int, int)> := [(0, 2), (1, 1), (0, 1), (-1, 1), (2, 0), (1, 0)]

  /** A distance, at most m on either side. */
  function Limit(d: int, m: nat): int {
    if d > m then m else if d + m < 0 then 0 - m else d
  }

  /** How much a neighbour differs, within the clipping value; its row is at most m rows away. */
  function Difference(img: Image, clip: int, x: int, y: int, dx: int, dy: int, m: nat): int
    requires clip >= 0
  {
    Limit(img(x + dx, y + Limit(dy, m)) - img(x, y), clip)
  }

  /** A coefficient times the differences of two opposite neighbours. */
  function Weighted(img: Image, c: int, clip: int, x: int, y: int, dx: int, dy: int, m: nat): int
    requires clip >= 0
  {
    c * (Difference(img, clip, x, y, dx, dy, m) + Difference(img, clip, x, y, -dx, -dy, m))
  }

  /** The first n offsets of a diamond, turned to orientation t. */
  function DiamondSum(img: Image, f: seq<int>, clip: seq<int>, o: seq<(int, int)>, t: nat, x: int, y: int, m: nat,
                      n: nat): int
    requires n <= |o| && |o| < |f| == |clip| && ValidClips(clip)
  {
    if n == 0 then 0
    else
      DiamondSum(img, f, clip, o, t, x, y, m, n - 1) +
      Weighted(img, f[n - 1], clip[n - 1], x, y, OffX(t, o[n - 1].0, o[n - 1].1), OffY(t, o[n - 1].0, o[n - 1].1), m)
  }

  /** The weighted differences of destination cell (y, x): the set of its block's class, or the only one. */
  function SampleSum(k: Kernel, b: Block, img: Image, y: nat, x: nat): int
    requires k.Valid() && b.Valid() && b.dstY <= y && b.dstX <= x
  {
    var srcX, srcY, m := b.posX + (x - b.dstX), b.posY + (y - b.dstY), ToBoundary(y % b.ctuHeight, b.vbPos);
    match k
    case Luma(classes, coeffs, clips) =>
      var c := classes(b.dstY + 4 * ((y - b.dstY) / 4), b.dstX + 4 * ((x - b.dstX) / 4));
      var from := 13 * c.classIdx;
      SliceClips(clips, from, 13);
      DiamondSum(img, coeffs[from..from + 13], clips[from..from + 13], OFFSETS7, c.transposeIdx, srcX, srcY, m, 12)
    case Chroma(coef, clip) => DiamondSum(img, coef, clip, OFFSETS5, 0, srcX, srcY, m, 6)
  }

  /** The nearest value to curr + s / unit within the range, halves rounded up. */
  ghost predicate Rounded(v: int, curr: int, s: int, unit: nat, low: int, high: int) {
    && low <= v <= high
    && (low < v < high ==> unit * (v - curr) <= s + unit / 2 < unit * (v - curr) + unit)
    && (low < high ==> (v == low <==> s + unit / 2 < unit * (low - curr) + unit))
    && (low < high ==> (v == high <==> unit * (high - curr) <= s + unit / 2))
  }

  /** What the filter promises of a cell: 1/128 of its sum is added, 1/1024 in the rows next to the boundary. */
  ghost predicate FilteredValue(k: Kernel, b: Block, img: Image, low: int, high: int, y: nat, x: nat, v: int)
    requires k.Valid() && b.Valid() && b.dstY <= y && b.dstX <= x
  {
    var row := y % b.ctuHeight;
    Rounded(v, img(b.posX + (x - b.dstX), b.posY + (y - b.dstY)), SampleSum(k, b, img, y, x),
            if row == b.vbPos - 1 || row == b.vbPos then 1024 else 128, low, high)
  }

  /** The picture as a sample sees it: rows more than m away are replaced by the m-th. */
  function Clamped(img: Image, y: int, m: nat): Image {
    (sx, sy) => img(sx, y + Limit(sy - y, m))
  }

  lemma ClampedAt(img: Image, x: int, y: int, m: nat, d: int)
    ensures Clamped(img, y, m)(x, y) == img(x, y)
    ensures Clamped(img, y, m)(x, y + d) == img(x, y + Limit(d, m))
  {
    assert y + Limit(y - y, m) == y && y + d - y == d;
  }

  lemma TapIsWeighted(img: Image, c: int, clip: int, x: int, y: int, dx: int, dy: int, m: nat)
    requires clip >= 0
    ensures TapAt(Clamped(img, y, m), c, clip, x, y, dx, dy) == Weighted(img, c, clip, x, y, dx, dy, m)
  {
    ClampedAt(img, x, y, m, 0);
    ClampedAt(img, x + dx, y, m, dy);
    ClampedAt(img, x - dx, y, m, -dy);
    hide Clamped;
  }

  /** A row at a distance and the row read for it. */
  ghost predicate ReadFor(img: Image, y: int, m: nat, d: int, r: int) {
    forall sx :: Clamped(img, y, m)(sx, y + d) == img(sx, r)
  }

  lemma ReadAt(img: Image, y: int, m: nat, d: int)
    ensures ReadFor(img, y, m, d, y + Limit(d, m))
  {
    var row, r := y + d, y + Limit(d, m);
    forall sx
      ensures Clamped(img, y, m)(sx, row) == img(sx, r)
    {
      ClampedAt(img, sx, y, m, d);
    }
  }

  lemma LimitIsSmaller(d: nat, m: nat)
    ensures Limit(d, m) == Smaller(d, m) && Limit(0 - d, m) == 0 - Smaller(d, m)
  {
  }

  /** The substituted rows of the picture are the plain rows of the picture as the sample sees it. */
  lemma RowsReadFor(img: Image, y: int, yVb: int, vbPos: int, chroma: bool)
    ensures var r, m := Substituted(y, yVb, vbPos, chroma), ToBoundary(yVb, vbPos);
            && ReadFor(img, y, m, 0, r.r0) && ReadFor(img, y, m, 1, r.r1) && ReadFor(img, y, m, -1, r.r2)
            && ReadFor(img, y, m, 2, r.r3) && ReadFor(img, y, m, -2, r.r4)
            && (!chroma ==> ReadFor(img, y, m, 3, r.r5) && ReadFor(img, y, m, -3, r.r6))
  {
    hide *;
    var m := ToBoundary(yVb, vbPos);
    SubstitutionIsClamp(y, yVb, vbPos, chroma);
    LimitIsSmaller(0, m);
    LimitIsSmaller(1, m);
    LimitIsSmaller(2, m);
    LimitIsSmaller(3, m);
    ReadAt(img, y, m, 0);
    ReadAt(img, y, m, 1);
    ReadAt(img, y, m, -1);
    ReadAt(img, y, m, 2);
    ReadAt(img, y, m, -2);
    ReadAt(img, y, m, 3);
    ReadAt(img, y, m, -3);
  }

  lemma SubstitutedSum7(img: Image, f: seq<int>, clip: seq<int>, x: int, y: int, yVb: int, vbPos: int)
    requires |f| == |clip| == 13 && ValidClips(clip)
    ensures Sum7(img, f, clip, x, Substituted(y, yVb, vbPos, false))
         == Sum7(Clamped(img, y, ToBoundary(yVb, vbPos)), f, clip, x, Plain(y))
  {
    RowsReadFor(img, y, yVb, vbPos, false);
    assert y + -1 == y - 1 && y + -2 == y - 2 && y + -3 == y - 3 && y + 0 == y;
    hide Substituted, Tap, ToBoundary, Clamped;
  }

  lemma SubstitutedSum5(img: Image, f: seq<int>, clip: seq<int>, x: int, y: int, yVb: int, vbPos: int)
    requires |f| == |clip| == 7 && ValidClips(clip)
    ensures Sum5(img, f, clip, x, Substituted(y, yVb, vbPos, true))
         == Sum5(Clamped(img, y, ToBoundary(yVb, vbPos)), f, clip, x, Plain(y))
  {
    RowsReadFor(img, y, yVb, vbPos, true);
    assert y + -1 == y - 1 && y + -2 == y - 2 && y + 0 == y;
    hide Substituted, Tap, ToBoundary, Clamped;
  }

  lemma DiamondStep(img: Image, f: seq<int>, clip: seq<int>, o: seq<(int, int)>, t: nat, x: int, y: int, m: nat, n: nat)
    requires n <= |o| && |o| < |f| == |clip| && ValidClips(clip)
    ensures DiamondSum(img, f, clip, o, t, x, y, m, 0) == 0
    ensures n < |o| ==> clip[n] >= 0
    ensures n < |o| ==>
      DiamondSum(img, f, clip, o, t, x, y, m, n + 1) ==
      DiamondSum(img, f, clip, o, t, x, y, m, n) +
      TapAt(Clamped(img, y, m), f[n], clip[n], x, y, OffX(t, o[n].0, o[n].1), OffY(t, o[n].0, o[n].1))
  {
    if n < |o| {
      TapIsWeighted(img, f[n], clip[n], x, y, OffX(t, o[n].0, o[n].1), OffY(t, o[n].0, o[n].1), m);
    }
    hide TapAt, Weighted, OffX, OffY;
  }

  lemma Offsets7()
    ensures |OFFSETS7| == 12
    ensures OFFSETS7[0] == (0, 3) && OFFSETS7[1] == (1, 2) && OFFSETS7[2] == (0, 2) && OFFSETS7[3] == (-1, 2)
    ensures OFFSETS7[4] == (2, 1) && OFFSETS7[5] == (1, 1) && OFFSETS7[6] == (0, 1) && OFFSETS7[7] == (-1, 1)
    ensures OFFSETS7[8] == (-2, 1) && OFFSETS7[9] == (3, 0) && OFFSETS7[10] == (2, 0) && OFFSETS7[11] == (1, 0)
  {
  }

  lemma Offsets5()
    ensures |OFFSETS5| == 6
    ensures OFFSETS5[0] == (0, 2) && OFFSETS5[1] == (1, 1) && OFFSETS5[2] == (0, 1) && OFFSETS5[3] == (-1, 1)
    ensures OFFSETS5[4] == (2, 0) && OFFSETS5[5] == (1, 0)
  {
  }

  /** The kernel's sum, with reordered coefficients and substituted rows, is the sum over the turned diamond. */
  lemma KernelSum7(img: Image, f: seq<int>, clip: seq<int>, t: nat, x: int, y: int, yVb: int, vbPos: int)
    requires |f| == |clip| == 13 && ValidClips(clip)
    ensures |OFFSETS7| == 12 && ValidClips(Oriented7(t, clip))
    ensures Sum7(img, Oriented7(t, f), Oriented7(t, clip), x, Substituted(y, yVb, vbPos, false))
         == DiamondSum(img, f, clip, OFFSETS7, t, x, y, ToBoundary(yVb, vbPos), 12)
  {
    hide *;
    var m := ToBoundary(yVb, vbPos);
    var seen := Clamped(img, y, m);
    OrientedClips7(t, clip);
    SubstitutedSum7(img, Oriented7(t, f), Oriented7(t, clip), x, y, yVb, vbPos);
    Turned7(seen, f, clip, t, x, y);
    Sum7OfView(seen, t, f, clip, x, y);
    Offsets7();
    DiamondStep(img, f, clip, OFFSETS7, t, x, y, m, 0);
    DiamondStep(img, f, clip, OFFSETS7, t, x, y, m, 1);
    DiamondStep(img, f, clip, OFFSETS7, t, x, y, m, 2);
    DiamondStep(img, f, clip, OFFSETS7, t, x, y, m, 3);
    DiamondStep(img, f, clip, OFFSETS7, t, x, y, m, 4);
    DiamondStep(img, f, clip, OFFSETS7, t, x, y, m, 5);
    DiamondStep(img, f, clip, OFFSETS7, t, x, y, m, 6);
    DiamondStep(img, f, clip, OFFSETS7, t, x, y, m, 7);
    DiamondStep(img, f, clip, OFFSETS7, t, x, y, m, 8);
    DiamondStep(img, f, clip, OFFSETS7, t, x, y, m, 9);
    DiamondStep(img, f, clip, OFFSETS7, t, x, y, m, 10);
    DiamondStep(img, f, clip, OFFSETS7, t, x, y, m, 11);
  }

  lemma Turned7(img: Image, f: seq<int>, clip: seq<int>, t: nat, x: int, y: int)
    requires |f| == |clip| == 13 && ValidClips(clip)
    ensures ValidClips(Oriented7(t, clip))
    ensures Sum7(img, Oriented7(t, f), Oriented7(t, clip), x, Plain(y))
         == Sum7(View(t, img), f, clip, ViewX(t, x, y), Plain(ViewY(t, x, y)))
  {
    OrientationIsGeometric7(img, f, clip, x, y, t);
    hide Oriented7, Sum7, View, ViewX, ViewY, Plain, ValidClips;
  }

  lemma KernelSum5(img: Image, f: seq<int>, clip: seq<int>, x: int, y: int, yVb: int, vbPos: int)
    requires |f| == |clip| == 7 && ValidClips(clip)
    ensures |OFFSETS5| == 6
    ensures Sum5(img, f, clip, x, Substituted(y, yVb, vbPos, true))
         == DiamondSum(img, f, clip, OFFSETS5, 0, x, y, ToBoundary(yVb, vbPos), 6)
  {
    hide *;
    var m := ToBoundary(yVb, vbPos);
    SubstitutedSum5(img, f, clip, x, y, yVb, vbPos);
    Sum5ByOffsets(Clamped(img, y, m), f, clip, x, y);
    Offsets5();
    Upright();
    DiamondStep(img, f, clip, OFFSETS5, 0, x, y, m, 0);
    DiamondStep(img, f, clip, OFFSETS5, 0, x, y, m, 1);
    DiamondStep(img, f, clip, OFFSETS5, 0, x, y, m, 2);
    DiamondStep(img, f, clip, OFFSETS5, 0, x, y, m, 3);
    DiamondStep(img, f, clip, OFFSETS5, 0, x, y, m, 4);
    DiamondStep(img, f, clip, OFFSETS5, 0, x, y, m, 5);
  }

  lemma Upright()
    ensures forall dx, dy :: OffX(0, dx, dy) == dx && OffY(0, dx, dy) == dy
  {
  }

  /** The kernel's shift and clip give the nearest value. */
  lemma FinishRounds(sum: int, near: bool, curr: int, low: int, high: int)
    requires low <= high
    ensures Rounded(Finish(sum, near, curr, low, high), curr, sum, if near then 1024 else 128, low, high)
  {
  }

  lemma BlockOfCell(b: Block, bi: nat, bj: nat, y: nat, x: nat)
    requires InBlock(b, bi, bj, y, x)
    ensures b.dstY <= y && b.dstX <= x && (y - b.dstY) / 4 == bi && (x - b.dstX) / 4 == bj
  {
  }

  lemma LumaTaps(k: Kernel, b: Block, img: Image, bi: nat, bj: nat, x: int, r: Rows, c: Class)
    requires k.Valid() && k.Luma? && c == k.classes(b.dstY + 4 * bi, b.dstX + 4 * bj)
    ensures 13 * c.classIdx + 13 <= |k.coeffs| == |k.clips|
    ensures var f, clip := ClassPart(k.coeffs, c), ClassPart(k.clips, c);
            && ValidClips(clip) && ValidClips(Oriented7(c.transposeIdx, clip))
            && TapSum(k, b, img, bi, bj, x, r)
            == Sum7(img, Oriented7(c.transposeIdx, f), Oriented7(c.transposeIdx, clip), x, r)
  {
    hide Sum7, Oriented7, ValidClips;
    SliceClips(k.clips, 13 * c.classIdx, 13);
    BlockClipsValid(k, b, bi, bj);
  }

  lemma LumaDiamond(k: Kernel, b: Block, img: Image, y: nat, x: nat, c: Class)
    requires k.Valid() && k.Luma? && b.Valid() && b.dstY <= y && b.dstX <= x && b.ctuHeight > 0
    requires c == k.classes(b.dstY + 4 * ((y - b.dstY) / 4), b.dstX + 4 * ((x - b.dstX) / 4))
    requires 13 * c.classIdx + 13 <= |k.coeffs| == |k.clips| && ValidClips(ClassPart(k.clips, c)) && |OFFSETS7| == 12
    ensures SampleSum(k, b, img, y, x)
         == DiamondSum(img, ClassPart(k.coeffs, c), ClassPart(k.clips, c), OFFSETS7, c.transposeIdx,
                       b.posX + (x - b.dstX), b.posY + (y - b.dstY), ToBoundary(y % b.ctuHeight, b.vbPos), 12)
  {
    hide DiamondSum, ToBoundary, ValidClips, OFFSETS7;
  }

  lemma LumaSumMeans(k: Kernel, b: Block, img: Image, bi: nat, bj: nat, y: nat, x: nat, srcX: int, srcY: int, yVb: nat)
    requires k.Valid() && k.Luma? && b.Valid() && InBlock(b, bi, bj, y, x) && b.dstY <= y && b.dstX <= x
    requires b.ctuHeight > 0 && srcX == b.posX + (x - b.dstX) && srcY == b.posY + (y - b.dstY) && yVb == y % b.ctuHeight
    ensures TapSum(k, b, img, bi, bj, srcX, Substituted(srcY, yVb, b.vbPos, false)) == SampleSum(k, b, img, y, x)
  {
    hide *;
    BlockOfCell(b, bi, bj, y, x);
    Offsets7();
    var c := k.classes(b.dstY + 4 * bi, b.dstX + 4 * bj);
    LumaTaps(k, b, img, bi, bj, srcX, Substituted(srcY, yVb, b.vbPos, false), c);
    LumaDiamond(k, b, img, y, x, c);
    KernelSum7(img, ClassPart(k.coeffs, c), ClassPart(k.clips, c), c.transposeIdx, srcX, srcY, yVb, b.vbPos);
  }

  lemma ChromaSumMeans(k: Kernel, b: Block, img: Image, bi: nat, bj: nat, y: nat, x: nat)
    requires k.Valid() && k.Chroma? && b.Valid() && b.dstY <= y && b.dstX <= x
    ensures TapSum(k, b, img, bi, bj, b.posX + (x - b.dstX),
                   Substituted(b.posY + (y - b.dstY), y % b.ctuHeight, b.vbPos, true))
         == SampleSum(k, b, img, y, x)
  {
    KernelSum5(img, k.coef, k.clip, b.posX + (x - b.dstX), b.posY + (y - b.dstY), y % b.ctuHeight, b.vbPos);
    hide Sum5, DiamondSum, ToBoundary, ValidClips, Substituted;
  }

  lemma TapSumMeans(k: Kernel, b: Block, img: Image, bi: nat, bj: nat, y: nat, x: nat)
    requires k.Valid() && b.Valid() && b.ctuHeight > 0 && InBlock(b, bi, bj, y, x) && b.dstY <= y && b.dstX <= x
    ensures TapSum(k, b, img, bi, bj, b.posX + (x - b.dstX),
                   Substituted(b.posY + (y - b.dstY), y % b.ctuHeight, b.vbPos, k.Chroma?))
         == SampleSum(k, b, img, y, x)
  {
    hide *;
    if k.Luma? {
      LumaSumMeans(k, b, img, bi, bj, y, x, b.posX + (x - b.dstX), b.posY + (y - b.dstY), y % b.ctuHeight);
    } else {
      ChromaSumMeans(k, b, img, bi, bj, y, x);
    }
  }

  lemma CurrentRow(y: int, yVb: int, vbPos: int, chroma: bool)
    ensures Substituted(y, yVb, vbPos, chroma).r0 == y
  {
  }

  /** The filtered sample is what the filter promises of its cell. */
  lemma FilteredMeans(k: Kernel, b: Block, img: Image, low: int, high: int, bi: nat, bj: nat, y: nat, x: nat)
    requires k.Valid() && b.Valid() && low <= high && InBlock(b, bi, bj, y, x)
    ensures b.dstY <= y && b.dstX <= x
    ensures FilteredValue(k, b, img, low, high, y, x, FilteredSample(k, b, img, low, high, bi, bj, y, x))
  {
    hide *;
    PositiveHeight(b);
    BlockOfCell(b, bi, bj, y, x);
    var srcX, srcY, yVb := b.posX + (x - b.dstX), b.posY + (y - b.dstY), y % b.ctuHeight;
    var r := Substituted(srcY, yVb, b.vbPos, k.Chroma?);
    var v := FilteredSample(k, b, img, low, high, bi, bj, y, x);
    FilteredIs(k, b, img, low, high, bi, bj, y, x, srcX, srcY, r);
    TapSumMeans(k, b, img, bi, bj, y, x);
    CurrentRow(srcY, yVb, b.vbPos, k.Chroma?);
    FinishRounds(TapSum(k, b, img, bi, bj, srcX, r), NearBoundary(yVb, b.vbPos), img(srcX, srcY), low, high);
    ValueOf(k, b, img, low, high, y, x, v);
  }

  lemma ValueOf(k: Kernel, b: Block, img: Image, low: int, high: int, y: nat, x: nat, v: int)
    requires k.Valid() && b.Valid() && b.ctuHeight > 0 && b.dstY <= y && b.dstX <= x
    requires Rounded(v, img(b.posX + (x - b.dstX), b.posY + (y - b.dstY)), SampleSum(k, b, img, y, x),
                     if NearBoundary(y % b.ctuHeight, b.vbPos) then 1024 else 128, low, high)
    ensures FilteredValue(k, b, img, low, high, y, x, v)
  {
    hide Rounded, SampleSum, Kernel.Valid;
  }
}

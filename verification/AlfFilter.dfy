/** The adaptive loop filter kernels (section 8.8.5 of Rec. ITU-T H.266): oriented coefficients, rows
    next to the virtual boundary, and the filtered sample. */
module AlfFilter {
  import opened AlfClassify
  import opened Arith

  // ---- one sample ----

  /** Two neighbours' clipped differences to the current sample. */
  function ClipAlf(clip: int, ref: int, val0: int, val1: int): int
    requires clip >= 0
  {
    Clip3(-clip, clip, val0 - ref) + Clip3(-clip, clip, val1 - ref)
  }

  /** The order of the two neighbours does not matter. */
  lemma ClipAlfSymmetric(clip: int, ref: int, a: int, b: int)
    requires clip >= 0
    ensures ClipAlf(clip, ref, a, b) == ClipAlf(clip, ref, b, a)
  {
  }

  /** The pixel rows a sample's taps are read from: the current one and three on each side. */
  datatype Rows = Rows(r0: int, r1: int, r2: int, r3: int, r4: int, r5: int, r6: int)

  /** One tap: a coefficient times the clipped differences of a pair of neighbours. */
  function Tap(c: int, clip: int, ref: int, a: int, b: int): int
    requires clip >= 0
  {
    c * ClipAlf(clip, ref, a, b)
  }

  ghost predicate ValidClips(clip: seq<int>) {
    forall k :: 0 <= k < |clip| ==> clip[k] >= 0
  }

  /** The 7x7 diamond's sum, from the rows the taps are read from. */
  function Sum7(img: Image, f: seq<int>, clip: seq<int>, x: int, r: Rows): int
    requires |f| == |clip| == 13 && ValidClips(clip)
  {
    var curr := img(x, r.r0);
    Tap(f[0], clip[0], curr, img(x, r.r5), img(x, r.r6)) +
    Tap(f[1], clip[1], curr, img(x + 1, r.r3), img(x - 1, r.r4)) +
    Tap(f[2], clip[2], curr, img(x, r.r3), img(x, r.r4)) +
    Tap(f[3], clip[3], curr, img(x - 1, r.r3), img(x + 1, r.r4)) +
    Tap(f[4], clip[4], curr, img(x + 2, r.r1), img(x - 2, r.r2)) +
    Tap(f[5], clip[5], curr, img(x + 1, r.r1), img(x - 1, r.r2)) +
    Tap(f[6], clip[6], curr, img(x, r.r1), img(x, r.r2)) +
    Tap(f[7], clip[7], curr, img(x - 1, r.r1), img(x + 1, r.r2)) +
    Tap(f[8], clip[8], curr, img(x - 2, r.r1), img(x + 2, r.r2)) +
    Tap(f[9], clip[9], curr, img(x + 3, r.r0), img(x - 3, r.r0)) +
    Tap(f[10], clip[10], curr, img(x + 2, r.r0), img(x - 2, r.r0)) +
    Tap(f[11], clip[11], curr, img(x + 1, r.r0), img(x - 1, r.r0))
  }

  /** The 5x5 diamond's sum. */
  function Sum5(img: Image, f: seq<int>, clip: seq<int>, x: int, r: Rows): int
    requires |f| == |clip| == 7 && ValidClips(clip)
  {
    var curr := img(x, r.r0);
    Tap(f[0], clip[0], curr, img(x, r.r3), img(x, r.r4)) +
    Tap(f[1], clip[1], curr, img(x + 1, r.r1), img(x - 1, r.r2)) +
    Tap(f[2], clip[2], curr, img(x, r.r1), img(x, r.r2)) +
    Tap(f[3], clip[3], curr, img(x - 1, r.r1), img(x + 1, r.r2)) +
    Tap(f[4], clip[4], curr, img(x + 2, r.r0), img(x - 2, r.r0)) +
    Tap(f[5], clip[5], curr, img(x + 1, r.r0), img(x - 1, r.r0))
  }

  const SHIFT_ROUND := 64
  const SHIFT_SIZE := 128

  /** Rounding, the current sample added back, and the clipping range; next to the virtual boundary the
      sum counts an eighth. */
  function Finish(sum: int, near: bool, curr: int, low: int, high: int): int
    requires low <= high
  {
    var scaled := if near then (sum + 512) / 1024 else (sum + SHIFT_ROUND) / SHIFT_SIZE;
    Clip3(low, high, scaled + curr)
  }

  // ---- orientation ----

  /** The program's reordering of coefficients (and of clipping values) of the 7x7 filter. */
  function Oriented7(t: nat, c: seq<int>): (r: seq<int>)
    requires |c| == 13
    ensures |r| == 13
  {
    if t == 1 then [c[9], c[4], c[10], c[8], c[1], c[5], c[11], c[7], c[3], c[0], c[2], c[6], c[12]]
    else if t == 2 then [c[0], c[3], c[2], c[1], c[8], c[7], c[6], c[5], c[4], c[9], c[10], c[11], c[12]]
    else if t == 3 then [c[9], c[8], c[10], c[4], c[3], c[7], c[11], c[5], c[1], c[0], c[2], c[6], c[12]]
    else c
  }

  function Oriented5(t: nat, c: seq<int>): (r: seq<int>)
    requires |c| == 7
    ensures |r| == 7
  {
    if t == 1 then [c[4], c[1], c[5], c[3], c[0], c[2], c[6]]
    else if t == 2 then [c[0], c[3], c[2], c[1], c[4], c[5], c[6]]
    else if t == 3 then [c[4], c[3], c[5], c[1], c[0], c[2], c[6]]
    else c
  }

  /** The picture seen in an orientation: transposed, mirrored, or both. */
  function View(t: nat, img: Image): Image {
    if t == 1 then (x, y) => img(y, x)
    else if t == 2 then (x, y) => img(-x, y)
    else if t == 3 then (x, y) => img(-y, x)
    else img
  }

  /** Where a position is in that view. */
  function ViewX(t: nat, x: int, y: int): int {
    if t == 1 then y else if t == 2 then -x else if t == 3 then y else x
  }

  function ViewY(t: nat, x: int, y: int): int {
    if t == 1 then x else if t == 2 then y else if t == 3 then -x else y
  }

  /** Seven consecutive rows, away from the virtual boundary. */
  function Plain(y: int): Rows {
    Rows(y, y + 1, y - 1, y + 2, y - 2, y + 3, y - 3)
  }

  lemma TapSwap(c: int, clip: int, ref: int, a: int, b: int)
    requires clip >= 0
    ensures Tap(c, clip, ref, a, b) == Tap(c, clip, ref, b, a)
  {
    ClipAlfSymmetric(clip, ref, a, b);
  }

  /** A tap at an offset and its opposite. */
  function TapAt(img: Image, c: int, clip: int, x: int, y: int, dx: int, dy: int): int
    requires clip >= 0
  {
    Tap(c, clip, img(x, y), img(x + dx, y + dy), img(x - dx, y - dy))
  }

  lemma TapAtOpposite(img: Image, c: int, clip: int, x: int, y: int, dx: int, dy: int)
    requires clip >= 0
    ensures TapAt(img, c, clip, x, y, -dx, -dy) == TapAt(img, c, clip, x, y, dx, dy)
  {
    TapSwap(c, clip, img(x, y), img(x + dx, y + dy), img(x - dx, y - dy));
  }

  /** An offset in the view, as an offset in the picture. */
  function OffX(t: nat, dx: int, dy: int): int {
    if t == 1 then dy else if t == 2 then -dx else if t == 3 then -dy else dx
  }

  function OffY(t: nat, dx: int, dy: int): int {
    if t == 1 then dx else if t == 2 then dy else if t == 3 then dx else dy
  }

  lemma ViewShift(img: Image, t: nat, x: int, y: int, dx: int, dy: int)
    ensures View(t, img)(ViewX(t, x, y) + dx, ViewY(t, x, y) + dy) == img(x + OffX(t, dx, dy), y + OffY(t, dx, dy))
  {
  }

  /** A tap of the view is the tap of the picture at the oriented offset. */
  lemma TapOfView(img: Image, t: nat, c: int, clip: int, x: int, y: int, dx: int, dy: int)
    requires clip >= 0
    ensures TapAt(View(t, img), c, clip, ViewX(t, x, y), ViewY(t, x, y), dx, dy)
         == TapAt(img, c, clip, x, y, OffX(t, dx, dy), OffY(t, dx, dy))
  {
    ViewShift(img, t, x, y, 0, 0);
    ViewShift(img, t, x, y, dx, dy);
    ViewShift(img, t, x, y, -dx, -dy);
    hide Tap, View, ViewX, ViewY;
  }

  /** The offset of each coefficient of the 7x7 filter. */
  lemma Sum7ByOffsets(img: Image, f: seq<int>, clip: seq<int>, x: int, y: int)
    requires |f| == |clip| == 13 && ValidClips(clip)
    ensures Sum7(img, f, clip, x, Plain(y))
         == TapAt(img, f[0], clip[0], x, y, 0, 3) +
            TapAt(img, f[1], clip[1], x, y, 1, 2) + TapAt(img, f[2], clip[2], x, y, 0, 2) +
            TapAt(img, f[3], clip[3], x, y, -1, 2) +
            TapAt(img, f[4], clip[4], x, y, 2, 1) + TapAt(img, f[5], clip[5], x, y, 1, 1) +
            TapAt(img, f[6], clip[6], x, y, 0, 1) +
            TapAt(img, f[7], clip[7], x, y, -1, 1) + TapAt(img, f[8], clip[8], x, y, -2, 1) +
            TapAt(img, f[9], clip[9], x, y, 3, 0) + TapAt(img, f[10], clip[10], x, y, 2, 0) +
            TapAt(img, f[11], clip[11], x, y, 1, 0)
  {
    hide Tap;
  }

  /** The 7x7 sum of the oriented picture, tap by tap in the picture itself. */
  lemma Sum7OfView(img: Image, t: nat, f: seq<int>, clip: seq<int>, x: int, y: int)
    requires |f| == |clip| == 13 && ValidClips(clip)
    ensures Sum7(View(t, img), f, clip, ViewX(t, x, y), Plain(ViewY(t, x, y)))
         == TapAt(img, f[0], clip[0], x, y, OffX(t, 0, 3), OffY(t, 0, 3)) +
            TapAt(img, f[1], clip[1], x, y, OffX(t, 1, 2), OffY(t, 1, 2)) +
            TapAt(img, f[2], clip[2], x, y, OffX(t, 0, 2), OffY(t, 0, 2)) +
            TapAt(img, f[3], clip[3], x, y, OffX(t, -1, 2), OffY(t, -1, 2)) +
            TapAt(img, f[4], clip[4], x, y, OffX(t, 2, 1), OffY(t, 2, 1)) +
            TapAt(img, f[5], clip[5], x, y, OffX(t, 1, 1), OffY(t, 1, 1)) +
            TapAt(img, f[6], clip[6], x, y, OffX(t, 0, 1), OffY(t, 0, 1)) +
            TapAt(img, f[7], clip[7], x, y, OffX(t, -1, 1), OffY(t, -1, 1)) +
            TapAt(img, f[8], clip[8], x, y, OffX(t, -2, 1), OffY(t, -2, 1)) +
            TapAt(img, f[9], clip[9], x, y, OffX(t, 3, 0), OffY(t, 3, 0)) +
            TapAt(img, f[10], clip[10], x, y, OffX(t, 2, 0), OffY(t, 2, 0)) +
            TapAt(img, f[11], clip[11], x, y, OffX(t, 1, 0), OffY(t, 1, 0))
  {
    hide Sum7, TapAt, View, ViewX, ViewY, OffX, OffY;
    Sum7ByOffsets(View(t, img), f, clip, ViewX(t, x, y), ViewY(t, x, y));
    TapOfView(img, t, f[0], clip[0], x, y, 0, 3);
    TapOfView(img, t, f[1], clip[1], x, y, 1, 2);
    TapOfView(img, t, f[2], clip[2], x, y, 0, 2);
    TapOfView(img, t, f[3], clip[3], x, y, -1, 2);
    TapOfView(img, t, f[4], clip[4], x, y, 2, 1);
    TapOfView(img, t, f[5], clip[5], x, y, 1, 1);
    TapOfView(img, t, f[6], clip[6], x, y, 0, 1);
    TapOfView(img, t, f[7], clip[7], x, y, -1, 1);
    TapOfView(img, t, f[8], clip[8], x, y, -2, 1);
    TapOfView(img, t, f[9], clip[9], x, y, 3, 0);
    TapOfView(img, t, f[10], clip[10], x, y, 2, 0);
    TapOfView(img, t, f[11], clip[11], x, y, 1, 0);
  }

  ghost predicate Geometric7(img: Image, f: seq<int>, clip: seq<int>, x: int, y: int, t: nat)
    requires |f| == |clip| == 13 && ValidClips(clip)
  {
    && ValidClips(Oriented7(t, clip))
    && Sum7(img, Oriented7(t, f), Oriented7(t, clip), x, Plain(y))
    == Sum7(View(t, img), f, clip, ViewX(t, x, y), Plain(ViewY(t, x, y)))
  }

  /** Filtering with reordered coefficients is filtering the transposed, mirrored or rotated picture with
      the coefficients as they are. */
  lemma OrientationIsGeometric7(img: Image, f: seq<int>, clip: seq<int>, x: int, y: int, t: nat)
    requires |f| == |clip| == 13 && ValidClips(clip)
    ensures Geometric7(img, f, clip, x, y, t)
  {
    hide Geometric7, ValidClips;
    if t == 1 {
      Transposed7(img, f, clip, x, y);
    } else if t == 2 {
      Mirrored7(img, f, clip, x, y);
    } else if t == 3 {
      Rotated7(img, f, clip, x, y);
    } else {
      Upright7(img, f, clip, x, y, t);
    }
  }

  lemma Upright7(img: Image, f: seq<int>, clip: seq<int>, x: int, y: int, t: nat)
    requires |f| == |clip| == 13 && ValidClips(clip) && (t == 0 || t > 3)
    ensures Geometric7(img, f, clip, x, y, t)
  {
  }

  lemma OrientedClips7(t: nat, clip: seq<int>)
    requires |clip| == 13 && ValidClips(clip)
    ensures ValidClips(Oriented7(t, clip))
  {
  }

  lemma Order1(c: seq<int>)
    requires |c| == 13
    ensures var r := Oriented7(1, c);
            && r[0] == c[9] && r[1] == c[4] && r[2] == c[10] && r[3] == c[8] && r[4] == c[1]
            && r[5] == c[5] && r[6] == c[11] && r[7] == c[7] && r[8] == c[3]
            && r[9] == c[0] && r[10] == c[2] && r[11] == c[6] && r[12] == c[12]
  {
  }

  lemma Order2(c: seq<int>)
    requires |c| == 13
    ensures var r := Oriented7(2, c);
            && r[0] == c[0] && r[1] == c[3] && r[2] == c[2] && r[3] == c[1] && r[4] == c[8]
            && r[5] == c[7] && r[6] == c[6] && r[7] == c[5] && r[8] == c[4]
            && r[9] == c[9] && r[10] == c[10] && r[11] == c[11] && r[12] == c[12]
  {
  }

  lemma Order3(c: seq<int>)
    requires |c| == 13
    ensures var r := Oriented7(3, c);
            && r[0] == c[9] && r[1] == c[8] && r[2] == c[10] && r[3] == c[4] && r[4] == c[3]
            && r[5] == c[7] && r[6] == c[11] && r[7] == c[5] && r[8] == c[1]
            && r[9] == c[0] && r[10] == c[2] && r[11] == c[6] && r[12] == c[12]
  {
  }

  lemma Transposed7(img: Image, f: seq<int>, clip: seq<int>, x: int, y: int)
    requires |f| == |clip| == 13 && ValidClips(clip)
    ensures Geometric7(img, f, clip, x, y, 1)
  {
    hide Sum7, TapAt, View, ViewX, ViewY, ValidClips, Plain, Oriented7;
    OrientedClips7(1, clip);
    Order1(f);
    Order1(clip);
    Sum7ByOffsets(img, Oriented7(1, f), Oriented7(1, clip), x, y);
    Sum7OfView(img, 1, f, clip, x, y);
    TapAtOpposite(img, f[3], clip[3], x, y, -2, 1);
    TapAtOpposite(img, f[7], clip[7], x, y, -1, 1);
    TapAtOpposite(img, f[8], clip[8], x, y, -1, 2);
  }

  lemma Mirrored7(img: Image, f: seq<int>, clip: seq<int>, x: int, y: int)
    requires |f| == |clip| == 13 && ValidClips(clip)
    ensures Geometric7(img, f, clip, x, y, 2)
  {
    hide Sum7, TapAt, View, ViewX, ViewY, ValidClips, Plain, Oriented7;
    OrientedClips7(2, clip);
    Order2(f);
    Order2(clip);
    Sum7ByOffsets(img, Oriented7(2, f), Oriented7(2, clip), x, y);
    Sum7OfView(img, 2, f, clip, x, y);
    TapAtOpposite(img, f[9], clip[9], x, y, 3, 0);
    TapAtOpposite(img, f[10], clip[10], x, y, 2, 0);
    TapAtOpposite(img, f[11], clip[11], x, y, 1, 0);
  }

  lemma Rotated7(img: Image, f: seq<int>, clip: seq<int>, x: int, y: int)
    requires |f| == |clip| == 13 && ValidClips(clip)
    ensures Geometric7(img, f, clip, x, y, 3)
  {
    hide Sum7, TapAt, View, ViewX, ViewY, ValidClips, Plain, Oriented7;
    OrientedClips7(3, clip);
    Order3(f);
    Order3(clip);
    Sum7ByOffsets(img, Oriented7(3, f), Oriented7(3, clip), x, y);
    Sum7OfView(img, 3, f, clip, x, y);
    TapAtOpposite(img, f[0], clip[0], x, y, 3, 0);
    TapAtOpposite(img, f[2], clip[2], x, y, 2, 0);
    TapAtOpposite(img, f[3], clip[3], x, y, 2, 1);
    TapAtOpposite(img, f[6], clip[6], x, y, 1, 0);
    TapAtOpposite(img, f[7], clip[7], x, y, 1, 1);
    TapAtOpposite(img, f[8], clip[8], x, y, 1, 2);
  }

  // ---- the 5x5 filter ----

  lemma Sum5ByOffsets(img: Image, f: seq<int>, clip: seq<int>, x: int, y: int)
    requires |f| == |clip| == 7 && ValidClips(clip)
    ensures Sum5(img, f, clip, x, Plain(y))
         == TapAt(img, f[0], clip[0], x, y, 0, 2) +
            TapAt(img, f[1], clip[1], x, y, 1, 1) + TapAt(img, f[2], clip[2], x, y, 0, 1) +
            TapAt(img, f[3], clip[3], x, y, -1, 1) +
            TapAt(img, f[4], clip[4], x, y, 2, 0) + TapAt(img, f[5], clip[5], x, y, 1, 0)
  {
    hide Tap;
  }

  lemma Sum5OfView(img: Image, t: nat, f: seq<int>, clip: seq<int>, x: int, y: int)
    requires |f| == |clip| == 7 && ValidClips(clip)
    ensures Sum5(View(t, img), f, clip, ViewX(t, x, y), Plain(ViewY(t, x, y)))
         == TapAt(img, f[0], clip[0], x, y, OffX(t, 0, 2), OffY(t, 0, 2)) +
            TapAt(img, f[1], clip[1], x, y, OffX(t, 1, 1), OffY(t, 1, 1)) +
            TapAt(img, f[2], clip[2], x, y, OffX(t, 0, 1), OffY(t, 0, 1)) +
            TapAt(img, f[3], clip[3], x, y, OffX(t, -1, 1), OffY(t, -1, 1)) +
            TapAt(img, f[4], clip[4], x, y, OffX(t, 2, 0), OffY(t, 2, 0)) +
            TapAt(img, f[5], clip[5], x, y, OffX(t, 1, 0), OffY(t, 1, 0))
  {
    hide Sum5, TapAt, View, ViewX, ViewY, OffX, OffY;
    Sum5ByOffsets(View(t, img), f, clip, ViewX(t, x, y), ViewY(t, x, y));
    TapOfView(img, t, f[0], clip[0], x, y, 0, 2);
    TapOfView(img, t, f[1], clip[1], x, y, 1, 1);
    TapOfView(img, t, f[2], clip[2], x, y, 0, 1);
    TapOfView(img, t, f[3], clip[3], x, y, -1, 1);
    TapOfView(img, t, f[4], clip[4], x, y, 2, 0);
    TapOfView(img, t, f[5], clip[5], x, y, 1, 0);
  }

  lemma SmallOrder1(c: seq<int>)
    requires |c| == 7
    ensures var r := Oriented5(1, c);
            r[0] == c[4] && r[1] == c[1] && r[2] == c[5] && r[3] == c[3] && r[4] == c[0] && r[5] == c[2] && r[6] == c[6]
  {
  }

  lemma SmallOrder2(c: seq<int>)
    requires |c| == 7
    ensures var r := Oriented5(2, c);
            r[0] == c[0] && r[1] == c[3] && r[2] == c[2] && r[3] == c[1] && r[4] == c[4] && r[5] == c[5] && r[6] == c[6]
  {
  }

  lemma SmallOrder3(c: seq<int>)
    requires |c| == 7
    ensures var r := Oriented5(3, c);
            r[0] == c[4] && r[1] == c[3] && r[2] == c[5] && r[3] == c[1] && r[4] == c[0] && r[5] == c[2] && r[6] == c[6]
  {
  }

  lemma OrientedClips5(t: nat, clip: seq<int>)
    requires |clip| == 7 && ValidClips(clip)
    ensures ValidClips(Oriented5(t, clip))
  {
  }

  ghost predicate Geometric5(img: Image, f: seq<int>, clip: seq<int>, x: int, y: int, t: nat)
    requires |f| == |clip| == 7 && ValidClips(clip)
  {
    && ValidClips(Oriented5(t, clip))
    && Sum5(img, Oriented5(t, f), Oriented5(t, clip), x, Plain(y))
    == Sum5(View(t, img), f, clip, ViewX(t, x, y), Plain(ViewY(t, x, y)))
  }

  /** The same for the 5x5 filter. */
  lemma OrientationIsGeometric5(img: Image, f: seq<int>, clip: seq<int>, x: int, y: int, t: nat)
    requires |f| == |clip| == 7 && ValidClips(clip)
    ensures Geometric5(img, f, clip, x, y, t)
  {
    hide Geometric5, ValidClips;
    if t == 1 {
      Transposed5(img, f, clip, x, y);
    } else if t == 2 {
      Mirrored5(img, f, clip, x, y);
    } else if t == 3 {
      Rotated5(img, f, clip, x, y);
    } else {
      Upright5(img, f, clip, x, y, t);
    }
  }

  lemma Upright5(img: Image, f: seq<int>, clip: seq<int>, x: int, y: int, t: nat)
    requires |f| == |clip| == 7 && ValidClips(clip) && (t == 0 || t > 3)
    ensures Geometric5(img, f, clip, x, y, t)
  {
  }

  lemma Transposed5(img: Image, f: seq<int>, clip: seq<int>, x: int, y: int)
    requires |f| == |clip| == 7 && ValidClips(clip)
    ensures Geometric5(img, f, clip, x, y, 1)
  {
    hide Sum5, TapAt, View, ViewX, ViewY, ValidClips, Plain, Oriented5;
    OrientedClips5(1, clip);
    SmallOrder1(f);
    SmallOrder1(clip);
    Sum5ByOffsets(img, Oriented5(1, f), Oriented5(1, clip), x, y);
    Sum5OfView(img, 1, f, clip, x, y);
    TapAtOpposite(img, f[3], clip[3], x, y, -1, 1);
  }

  lemma Mirrored5(img: Image, f: seq<int>, clip: seq<int>, x: int, y: int)
    requires |f| == |clip| == 7 && ValidClips(clip)
    ensures Geometric5(img, f, clip, x, y, 2)
  {
    hide Sum5, TapAt, View, ViewX, ViewY, ValidClips, Plain, Oriented5;
    OrientedClips5(2, clip);
    SmallOrder2(f);
    SmallOrder2(clip);
    Sum5ByOffsets(img, Oriented5(2, f), Oriented5(2, clip), x, y);
    Sum5OfView(img, 2, f, clip, x, y);
    TapAtOpposite(img, f[4], clip[4], x, y, 2, 0);
    TapAtOpposite(img, f[5], clip[5], x, y, 1, 0);
  }

  lemma Rotated5(img: Image, f: seq<int>, clip: seq<int>, x: int, y: int)
    requires |f| == |clip| == 7 && ValidClips(clip)
    ensures Geometric5(img, f, clip, x, y, 3)
  {
    hide Sum5, TapAt, View, ViewX, ViewY, ValidClips, Plain, Oriented5;
    OrientedClips5(3, clip);
    SmallOrder3(f);
    SmallOrder3(clip);
    Sum5ByOffsets(img, Oriented5(3, f), Oriented5(3, clip), x, y);
    Sum5OfView(img, 3, f, clip, x, y);
    TapAtOpposite(img, f[0], clip[0], x, y, 2, 0);
    TapAtOpposite(img, f[2], clip[2], x, y, 1, 0);
    TapAtOpposite(img, f[3], clip[3], x, y, 1, 1);
  }

  // ---- the virtual boundary ----

  /** The rows the taps are read from: next to the boundary, rows across it are replaced by nearer ones,
      and the rows opposite to them as well. */
  function Substituted(y: int, yVb: int, vbPos: int, chroma: bool): Rows {
    if yVb < vbPos && yVb >= vbPos - (if chroma then 2 else 4) then
      var r1 := if yVb == vbPos - 1 then y else y + 1;
      var r3 := if yVb >= vbPos - 2 then r1 else y + 2;
      var r5 := if yVb >= vbPos - 3 then r3 else y + 3;
      var r2 := if yVb == vbPos - 1 then y else y - 1;
      var r4 := if yVb >= vbPos - 2 then r2 else y - 2;
      var r6 := if yVb >= vbPos - 3 then r4 else y - 3;
      Rows(y, r1, r2, r3, r4, r5, r6)
    else if yVb >= vbPos && yVb <= vbPos + (if chroma then 1 else 3) then
      var r2 := if yVb == vbPos then y else y - 1;
      var r4 := if yVb <= vbPos + 1 then r2 else y - 2;
      var r6 := if yVb <= vbPos + 2 then r4 else y - 3;
      var r1 := if yVb == vbPos then y else y + 1;
      var r3 := if yVb <= vbPos + 1 then r1 else y + 2;
      var r5 := if yVb <= vbPos + 2 then r3 else y + 3;
      Rows(y, r1, r2, r3, r4, r5, r6)
    else Plain(y)
  }

  /** Rows from the current one to the virtual boundary on its side. */
  function ToBoundary(yVb: int, vbPos: int): nat {
    if yVb < vbPos then vbPos - 1 - yVb else yVb - vbPos
  }

  function Smaller(a: nat, b: nat): nat {
    if a < b then a else b
  }

  /** Substitution is a clamp, the same on both sides. */
  lemma SubstitutionIsClamp(y: int, yVb: int, vbPos: int, chroma: bool)
    ensures var r, d := Substituted(y, yVb, vbPos, chroma), ToBoundary(yVb, vbPos);
            && r.r0 == y && r.r1 == y + Smaller(1, d) && r.r2 == y - Smaller(1, d)
            && r.r3 == y + Smaller(2, d) && r.r4 == y - Smaller(2, d)
            && (!chroma ==> r.r5 == y + Smaller(3, d) && r.r6 == y - Smaller(3, d))
  {
  }

  /** The strip between two virtual boundaries that a row lies in. */
  function Strip(row: int, h: nat, vbPos: int): int
    requires h > 0
  {
    (row - vbPos) / h
  }

  lemma SameStrip(y: nat, h: nat, vbPos: int, o: int)
    requires h > 0
    requires var m := y % h;
             && (m < vbPos ==> 0 <= m + o - vbPos + h < h && 0 <= m - vbPos + h)
             && (m >= vbPos ==> 0 <= m + o - vbPos < h && m - vbPos < h)
    ensures Strip(y + o, h, vbPos) == Strip(y, h, vbPos)
  {
    var q, m := y / h, y % h;
    var before: int := q - 1;
    assert y == q * h + m && before * h == q * h - h;
    if m < vbPos {
      DivModUnique(before, m + o - vbPos + h, h);
      DivModUnique(before, m - vbPos + h, h);
    } else {
      DivModUnique(q, m + o - vbPos, h);
      DivModUnique(q, m - vbPos, h);
    }
  }

  /** No luma tap of this row is read across a virtual boundary. */
  ghost predicate LumaStays(h: nat, y: nat)
    requires h > 0
  {
    var vb: int, r := h - 4, Substituted(y, y % h, h - 4, false);
    && Strip(r.r1, h, vb) == Strip(y, h, vb) && Strip(r.r2, h, vb) == Strip(y, h, vb)
    && Strip(r.r3, h, vb) == Strip(y, h, vb) && Strip(r.r4, h, vb) == Strip(y, h, vb)
    && Strip(r.r5, h, vb) == Strip(y, h, vb) && Strip(r.r6, h, vb) == Strip(y, h, vb)
  }

  ghost predicate ChromaStays(h: nat, y: nat)
    requires h > 0
  {
    var vb: int, r := h - 2, Substituted(y, y % h, h - 2, true);
    && Strip(r.r1, h, vb) == Strip(y, h, vb) && Strip(r.r2, h, vb) == Strip(y, h, vb)
    && Strip(r.r3, h, vb) == Strip(y, h, vb) && Strip(r.r4, h, vb) == Strip(y, h, vb)
  }

  lemma LumaRowStays(h: nat, y: nat)
    requires h >= 7
    ensures LumaStays(h, y)
  {
    var vb: int, d: nat := h - 4, ToBoundary(y % h, h - 4);
    var one: int, two: int, three: int := Smaller(1, d), Smaller(2, d), Smaller(3, d);
    SubstitutionIsClamp(y, y % h, vb, false);
    hide Substituted, Strip;
    SameStrip(y, h, vb, one);
    SameStrip(y, h, vb, -one);
    SameStrip(y, h, vb, two);
    SameStrip(y, h, vb, -two);
    SameStrip(y, h, vb, three);
    SameStrip(y, h, vb, -three);
  }

  lemma ChromaRowStays(h: nat, y: nat)
    requires h >= 3
    ensures ChromaStays(h, y)
  {
    var vb: int, d: nat := h - 2, ToBoundary(y % h, h - 2);
    var one: int, two: int, three: int := Smaller(1, d), Smaller(2, d), Smaller(3, d);
    SubstitutionIsClamp(y, y % h, vb, true);
    hide Substituted, Strip;
    SameStrip(y, h, vb, one);
    SameStrip(y, h, vb, -one);
    SameStrip(y, h, vb, two);
    SameStrip(y, h, vb, -two);
  }

  /** Luma taps never cross a virtual boundary exactly for CTU heights from 7, so from 8 for powers of two. */
  lemma LumaNeverCrosses(h: nat)
    requires h > 0
    ensures (forall y: nat :: LumaStays(h, y)) <==> h >= 7
  {
    if h >= 7 {
      forall y: nat
        ensures LumaStays(h, y)
      {
        LumaRowStays(h, y);
      }
    } else {
      LastLumaRow(h);
    }
  }

  lemma LastLumaRow(h: nat)
    requires 0 < h < 7
    ensures !LumaStays(h, h - 1)
  {
    DivModUnique(0, h - 1, h);
    SubstitutionIsClamp(h - 1, h - 1, h - 4, false);
    hide Substituted;
    assert 3 / h < 6 / h;
  }

  /** And chroma taps exactly for heights from 3, so from 4 for powers of two. */
  lemma ChromaNeverCrosses(h: nat)
    requires h > 0
    ensures (forall y: nat :: ChromaStays(h, y)) <==> h >= 3
  {
    if h >= 3 {
      forall y: nat
        ensures ChromaStays(h, y)
      {
        ChromaRowStays(h, y);
      }
    } else {
      LastChromaRow(h);
    }
  }

  lemma LastChromaRow(h: nat)
    requires 0 < h < 3
    ensures !ChromaStays(h, h - 1)
  {
    DivModUnique(0, h - 1, h);
    SubstitutionIsClamp(h - 1, h - 1, h - 2, true);
    hide Substituted;
    assert 1 / h < 2 / h;
  }
}

/** The lossless colour transform of residual buffers, on whole planes and in place. */
module ColourTransform {
  import opened Bits
  import opened Border

  // ---- one sample ----

  /** The three components of a sample, in plane order. */
  datatype Triple = Triple(p0: int, p1: int, p2: int)

  /** Green, blue and red become luma and two differences. */
  function Forward(s: Triple): Triple {
    var r, g, b := s.p2, s.p0, s.p1;
    var co := r - b;
    var t := b + co / 2;
    var cg := g - t;
    Triple(Pel(t + cg / 2), Pel(cg), Pel(co))
  }

  function Clip(low: int, high: int, x: int): int {
    if x < low then low else if x > high then high else x
  }

  /** Back again, after clipping to the range of the bit depth; red is computed from the blue just stored. */
  function Inverse(s: Triple, bd: nat): Triple {
    var max := Pow2(bd + 1) - 1;
    var y0, cg, co := Clip(-max - 1, max, s.p0), Clip(-max - 1, max, s.p1), Clip(-max - 1, max, s.p2);
    var t := y0 - cg / 2;
    var blue := Pel(t - co / 2);
    Triple(Pel(cg + t), blue, Pel(co + blue))
  }

  /** A residual of this bit depth. */
  predicate InDepth(s: Triple, bd: nat) {
    var max := Pow2(bd) - 1;
    -max <= s.p0 <= max && -max <= s.p1 <= max && -max <= s.p2 <= max
  }

  lemma PelIsExact(v: int)
    requires -0x8000 <= v < 0x8000
    ensures Pel(v) == v
  {
  }

  lemma Half(v: int)
    ensures 2 * (v / 2) <= v <= 2 * (v / 2) + 1
  {
  }

  /** The three steps, before they are stored. */
  lemma ForwardRange(s: Triple, m: int)
    requires m <= 0x3FFF && -m <= s.p0 <= m && -m <= s.p1 <= m && -m <= s.p2 <= m
    ensures var co := s.p2 - s.p1; var t := s.p1 + co / 2; var cg := s.p0 - t;
            && Forward(s) == Triple(t + cg / 2, cg, co) && -m <= t <= m
            && -m <= t + cg / 2 <= m && -2 * m <= cg <= 2 * m && -2 * m <= co <= 2 * m
  {
    hide Pel;
    var co := s.p2 - s.p1;
    var t := s.p1 + co / 2;
    var cg := s.p0 - t;
    Half(co);
    Half(cg);
    PelIsExact(co);
    PelIsExact(cg);
    PelIsExact(t + cg / 2);
  }

  /** What the three planes become: the luma of half green and a quarter each of red and blue, green less the
      mean of red and blue, and red less blue, with every half rounded down. */
  lemma ForwardAverages(s: Triple, bd: nat)
    requires bd <= 14 && InDepth(s, bd)
    ensures var green, blue, red := s.p0, s.p1, s.p2;
            Forward(s) == Triple((green + (red + blue) / 2) / 2, green - (red + blue) / 2, red - blue)
  {
    hide Pel, Forward, Pow2;
    DepthRange(s, bd);
    ForwardRange(s, Pow2(bd) - 1);
  }

  lemma InverseUndoes(co: int, t: int, cg: int, blue: int, bd: nat)
    requires blue == t - co / 2 && -0x3FFF <= blue <= 0x3FFF
    requires -0x3FFF <= cg + t <= 0x3FFF && -0x3FFF <= co + blue <= 0x3FFF
    requires var max := Pow2(bd + 1) - 1; -max <= t + cg / 2 <= max && -max <= cg <= max && -max <= co <= max
    ensures Inverse(Triple(t + cg / 2, cg, co), bd) == Triple(cg + t, blue, co + blue)
  {
    hide Pel, Pow2;
    PelIsExact(cg + t);
    PelIsExact(blue);
    PelIsExact(co + blue);
  }

  lemma DepthRange(s: Triple, bd: nat)
    requires bd <= 14 && InDepth(s, bd)
    ensures var m := Pow2(bd) - 1;
            m <= 0x3FFF && -m <= s.p0 <= m && -m <= s.p1 <= m && -m <= s.p2 <= m && Pow2(bd + 1) - 1 == 2 * m + 1
  {
    Pow2Mono(bd, 14);
    Pow2Small();
    Pow2Succ(bd);
    hide Pow2;
  }

  /** The forward outputs stay inside the inverse's clipping range, and the way back restores the sample. */
  lemma SampleIsRestored(s: Triple, bd: nat)
    requires bd <= 14 && InDepth(s, bd)
    ensures var max := Pow2(bd + 1) - 1; var f := Forward(s);
            -max <= f.p0 <= max && -max <= f.p1 <= max && -max <= f.p2 <= max
    ensures Inverse(Forward(s), bd) == s
  {
    hide *;
    DepthRange(s, bd);
    ForwardRange(s, Pow2(bd) - 1);
    var co := s.p2 - s.p1;
    var t := s.p1 + co / 2;
    InverseUndoes(co, t, s.p0 - t, s.p1, bd);
  }

  lemma Pow2Small()
    ensures Pow2(14) == 0x4000 && Pow2(15) == 0x8000
  {
    Pow2Table();
  }

  /** At 15 bits a difference no longer fits a sample. */
  lemma SampleIsLost(bd: nat)
    requires bd >= 15
    ensures InDepth(Triple(0, -0x7FFF, 0x7FFF), bd)
    ensures Inverse(Forward(Triple(0, -0x7FFF, 0x7FFF)), bd) != Triple(0, -0x7FFF, 0x7FFF)
  {
    Pow2Mono(15, bd);
    Pow2Mono(16, bd + 1);
    Pow2Succ(15);
    Pow2Small();
    hide Pow2;
  }

  /** The transform loses nothing exactly up to 14 bits. */
  lemma LosslessUpTo14(bd: nat)
    ensures (forall s :: InDepth(s, bd) ==> Inverse(Forward(s), bd) == s) <==> bd <= 14
  {
    hide Forward, Inverse, InDepth;
    if bd <= 14 {
      forall s | InDepth(s, bd)
        ensures Inverse(Forward(s), bd) == s
      {
        SampleIsRestored(s, bd);
      }
    } else {
      SampleIsLost(bd);
    }
  }

  // ---- residuals that the forward transform did not produce ----

  /** c is the value nearest to x that a residual transformed at this depth can have. */
  ghost predicate NearestInDepth(c: int, x: int, bd: nat) {
    var max := Pow2(bd + 1) - 1;
    && -max - 1 <= c <= max
    && forall v :: -max - 1 <= v <= max ==> Distance(c, x) <= Distance(v, x)
  }

  function Distance(a: int, b: int): nat {
    if a < b then b - a else a - b
  }

  ghost predicate Nearest(c: Triple, s: Triple, bd: nat) {
    NearestInDepth(c.p0, s.p0, bd) && NearestInDepth(c.p1, s.p1, bd) && NearestInDepth(c.p2, s.p2, bd)
  }

  lemma ClipIsNearest(c: int, x: int, bd: nat)
    ensures var m: int := Pow2(bd + 1); NearestInDepth(c, x, bd) <==> c == Clip(-m, m - 1, x)
  {
    hide Pow2;
    var m: int := Pow2(bd + 1);
    if NearestInDepth(c, x, bd) {
      var e := Clip(-m, m - 1, x);
      assert Distance(c, x) <= Distance(e, x);
    }
  }

  /** The steps of the inverse on values in range: what is stored, and that nothing wraps up to 13 bits. */
  lemma InverseRange(c: Triple, m: int)
    requires m <= 0x4000 && -m <= c.p0 < m && -m <= c.p1 < m && -m <= c.p2 < m
    ensures var t := c.p0 - c.p1 / 2;
            var blue := t - c.p2 / 2;
            -0x8000 <= c.p1 + t < 0x8000 && -0x8000 <= blue < 0x8000 && -0x8000 <= c.p2 + blue < 0x8000
  {
    Half(c.p1);
    Half(c.p2);
  }

  lemma ForwardUndoes(c: Triple)
    requires -0x8000 <= c.p0 < 0x8000 && -0x8000 <= c.p1 < 0x8000 && -0x8000 <= c.p2 < 0x8000
    ensures var t := c.p0 - c.p1 / 2; var blue := t - c.p2 / 2;
            Forward(Triple(c.p1 + t, blue, c.p2 + blue)) == c
  {
    hide Pel;
    PelIsExact(c.p0);
    PelIsExact(c.p1);
    PelIsExact(c.p2);
  }

  /** What the inverse makes of any residual is what the nearest in range stands for. */
  lemma InverseIsInverted(s: Triple, c: Triple, bd: nat)
    requires bd <= 13 && Nearest(c, s, bd)
    ensures Forward(Inverse(s, bd)) == c
  {
    hide Pow2, Pel, Forward, NearestInDepth;
    ClipIsNearest(c.p0, s.p0, bd);
    ClipIsNearest(c.p1, s.p1, bd);
    ClipIsNearest(c.p2, s.p2, bd);
    Pow2Mono(bd + 1, 14);
    Pow2Small();
    InverseRange(c, Pow2(bd + 1));
    var t := c.p0 - c.p1 / 2;
    var blue := t - c.p2 / 2;
    PelIsExact(c.p1 + t);
    PelIsExact(blue);
    PelIsExact(c.p2 + blue);
    ForwardUndoes(c);
  }

  lemma InverseWraps(bd: nat)
    requires bd >= 14
    ensures var c := Triple(0x7FFF, -0x8000, -0x8000); Nearest(c, c, bd) && Forward(Inverse(c, bd)) != c
  {
    hide Pow2, Pel;
    Pow2Mono(15, bd + 1);
    Pow2Small();
    PelWraps();
    PelIsExact(16383);
    PelIsExact(0);
    assert Inverse(Triple(0x7FFF, -0x8000, -0x8000), bd) == Triple(16383, -1, 0x7FFF);
  }

  lemma PelWraps()
    ensures Pel(-0x8001) == 0x7FFF && Pel(65535) == -1
  {
  }

  /** So, for every residual at all, the inverse is undone exactly up to 13 bits. */
  lemma InvertedUpTo13(bd: nat)
    ensures (forall s, c :: Nearest(c, s, bd) ==> Forward(Inverse(s, bd)) == c) <==> bd <= 13
  {
    hide Forward, Inverse, Nearest;
    if bd <= 13 {
      forall s, c | Nearest(c, s, bd)
        ensures Forward(Inverse(s, bd)) == c
      {
        InverseIsInverted(s, c, bd);
      }
    } else {
      InverseWraps(bd);
    }
  }

  // ---- whole planes ----

  /** Where three planes of one size lie in their buffers. */
  datatype Layout = Layout(o0: int, o1: int, o2: int, stride0: nat, stride1: nat, stride2: nat, width: nat,
                           height: nat) {
    function Plane(k: nat): Buf {
      if k == 0 then Buf(o0, stride0, width, height, 0, 0)
      else if k == 1 then Buf(o1, stride1, width, height, 0, 0)
      else Buf(o2, stride2, width, height, 0, 0)
    }

    predicate EqualStrides() {
      stride0 == stride1 && stride0 == stride2
    }

    ghost predicate FitsIn(n0: nat, n1: nat, n2: nat) {
      Fits(Plane(0), n0) && Fits(Plane(1), n1) && Fits(Plane(2), n2)
    }
  }

  /** Three planes' contents. */
  datatype Planes = Planes(p0: seq<int>, p1: seq<int>, p2: seq<int>)

  function At(s: seq<int>, b: Buf, x: int, y: int): int {
    if 0 <= Index(b, x, y) < |s| then s[Index(b, x, y)] else 0
  }

  function SampleAt(c: Planes, l: Layout, x: int, y: int): Triple {
    Triple(At(c.p0, l.Plane(0), x, y), At(c.p1, l.Plane(1), x, y), At(c.p2, l.Plane(2), x, y))
  }

  function Convert(s: Triple, forward: bool, bd: nat): Triple {
    if forward then Forward(s) else Inverse(s, bd)
  }

  /** The cells before (m, n), line by line, hold the values given; the rest of the buffer is as before. */
  ghost predicate Written(b: Buf, was: seq<int>, now: seq<int>, value: (int, int) -> int, n: nat, m: nat) {
    |now| == |was| && forall x, y :: Place(b, |was|, x, y) ==> WrittenAt(b, was, now, value, n, m, x, y)
  }

  ghost predicate WrittenAt(b: Buf, was: seq<int>, now: seq<int>, value: (int, int) -> int, n: nat, m: nat, x: int,
                            y: int)
    requires |now| == |was| && Place(b, |was|, x, y)
  {
    now[Index(b, x, y)] ==
      if InPicture(b, x, y) && (y < n || (y == n && x < m)) then value(x, y) else was[Index(b, x, y)]
  }

  lemma WriteNext(b: Buf, was: seq<int>, now: seq<int>, value: (int, int) -> int, n: nat, m: nat)
    requires Written(b, was, now, value, n, m) && n < b.height && m < b.width && Place(b, |was|, m, n)
    ensures Written(b, was, now[Index(b, m, n) := value(m, n)], value, n, m + 1)
  {
    hide Index;
    forall x, y | Place(b, |was|, x, y)
      ensures WrittenAt(b, was, now[Index(b, m, n) := value(m, n)], value, n, m + 1, x, y)
    {
      assert WrittenAt(b, was, now, value, n, m, x, y);
      IndexInjective(b, x, y, m, n);
    }
  }

  lemma LineWritten(b: Buf, was: seq<int>, now: seq<int>, value: (int, int) -> int, n: nat)
    requires Written(b, was, now, value, n, b.width)
    ensures Written(b, was, now, value, n + 1, 0)
  {
    hide Index;
    forall x, y | Place(b, |was|, x, y)
      ensures WrittenAt(b, was, now, value, n + 1, 0, x, y)
    {
      assert WrittenAt(b, was, now, value, n, b.width, x, y);
    }
  }

  /** The component of a plane, as a function of position. */
  ghost function Component(c: Planes, l: Layout, forward: bool, bd: nat, k: nat): (int, int) -> int {
    (x, y) =>
      var t := Convert(SampleAt(c, l, x, y), forward, bd);
      if k == 0 then t.p0 else if k == 1 then t.p1 else t.p2
  }

  /** Three planes hold the transform of three others. */
  ghost predicate Converted(src: Planes, from: Layout, was: Planes, now: Planes, to: Layout, forward: bool, bd: nat,
                            n: nat, m: nat) {
    && Written(to.Plane(0), was.p0, now.p0, Component(src, from, forward, bd, 0), n, m)
    && Written(to.Plane(1), was.p1, now.p1, Component(src, from, forward, bd, 1), n, m)
    && Written(to.Plane(2), was.p2, now.p2, Component(src, from, forward, bd, 2), n, m)
  }

  lemma SampleOfConverted(src: Planes, from: Layout, was: Planes, now: Planes, to: Layout, forward: bool, bd: nat,
                          x: int, y: int)
    requires to.FitsIn(|was.p0|, |was.p1|, |was.p2|) && Converted(src, from, was, now, to, forward, bd, to.height, 0)
    requires 0 <= x < to.width && 0 <= y < to.height
    ensures SampleAt(now, to, x, y) == Convert(SampleAt(src, from, x, y), forward, bd)
  {
    CellFits(to.Plane(0), |was.p0|, x, y);
    CellFits(to.Plane(1), |was.p1|, x, y);
    CellFits(to.Plane(2), |was.p2|, x, y);
    assert WrittenAt(to.Plane(0), was.p0, now.p0, Component(src, from, forward, bd, 0), to.height, 0, x, y);
    assert WrittenAt(to.Plane(1), was.p1, now.p1, Component(src, from, forward, bd, 1), to.height, 0, x, y);
    assert WrittenAt(to.Plane(2), was.p2, now.p2, Component(src, from, forward, bd, 2), to.height, 0, x, y);
    hide Index, Convert, SampleAt;
  }

  /** Forward into one set of buffers and inverse into another, with any strides and origins: every sample
      of the picture is restored. */
  lemma PlanesAreRestored(a: Planes, la: Layout, b0: Planes, b: Planes, lb: Layout, c0: Planes, c: Planes, lc: Layout,
                          bd: nat, x: int, y: int)
    requires bd <= 14 && lb.FitsIn(|b0.p0|, |b0.p1|, |b0.p2|) && lc.FitsIn(|c0.p0|, |c0.p1|, |c0.p2|)
    requires la.width == lb.width == lc.width && la.height == lb.height == lc.height
    requires Converted(a, la, b0, b, lb, true, bd, lb.height, 0) && Converted(b, lb, c0, c, lc, false, bd, lc.height, 0)
    requires 0 <= x < la.width && 0 <= y < la.height && InDepth(SampleAt(a, la, x, y), bd)
    ensures SampleAt(c, lc, x, y) == SampleAt(a, la, x, y)
  {
    hide Converted, SampleAt, Forward, Inverse, InDepth;
    SampleOfConverted(a, la, b0, b, lb, true, bd, x, y);
    SampleOfConverted(b, lb, c0, c, lc, false, bd, x, y);
    SampleIsRestored(SampleAt(a, la, x, y), bd);
  }

  // ---- the loops ----

  /** Source and destination are the same planes, or share no buffer. */
  ghost predicate SameOrApart(inPlace: bool, s: seq<array<int>>, from: Layout, d: seq<array<int>>, to: Layout) {
    && |s| == |d| == 3 && d[0] != d[1] && d[0] != d[2] && d[1] != d[2]
    && (inPlace ==> s == d && from == to)
    && (!inPlace ==> forall i, j :: 0 <= i < 3 && 0 <= j < 3 ==> s[i] != d[j])
  }

  function Contents(p: seq<array<int>>): Planes
    requires |p| == 3
    reads p[0], p[1], p[2]
  {
    Planes(p[0][..], p[1][..], p[2][..])
  }

  ghost predicate Progress(inPlace: bool, s: seq<array<int>>, from: Layout, d: seq<array<int>>, to: Layout,
                           src: Planes, was: Planes, forward: bool, bd: nat, n: nat, m: nat)
    requires |s| == |d| == 3
    reads s[0], s[1], s[2], d[0], d[1], d[2]
  {
    && Converted(src, from, was, Contents(d), to, forward, bd, n, m)
    && (if inPlace then src == was else Contents(s) == src)
    && from.width == to.width && from.height == to.height
    && from.FitsIn(|src.p0|, |src.p1|, |src.p2|) && to.FitsIn(|was.p0|, |was.p1|, |was.p2|)
  }

  /** What is not written yet is still the source. */
  lemma ReadsSource(inPlace: bool, s: seq<array<int>>, from: Layout, d: seq<array<int>>, to: Layout, src: Planes,
                    was: Planes,
                    forward: bool, bd: nat, n: nat, m: nat)
    requires SameOrApart(inPlace, s, from, d, to) && Progress(inPlace, s, from, d, to, src, was, forward, bd, n, m)
    requires n < to.height && m < to.width
    ensures 0 <= Index(from.Plane(0), m, n) < s[0].Length
    ensures s[0][Index(from.Plane(0), m, n)] == At(src.p0, from.Plane(0), m, n)
    ensures 0 <= Index(from.Plane(1), m, n) < s[1].Length
    ensures s[1][Index(from.Plane(1), m, n)] == At(src.p1, from.Plane(1), m, n)
    ensures 0 <= Index(from.Plane(2), m, n) < s[2].Length
    ensures s[2][Index(from.Plane(2), m, n)] == At(src.p2, from.Plane(2), m, n)
  {
    CellFits(from.Plane(0), |src.p0|, m, n);
    CellFits(from.Plane(1), |src.p1|, m, n);
    CellFits(from.Plane(2), |src.p2|, m, n);
    hide Index, Convert, SampleAt;
    if inPlace {
      var now := Contents(d);
      assert WrittenAt(to.Plane(0), was.p0, now.p0, Component(src, from, forward, bd, 0), n, m, m, n);
      assert WrittenAt(to.Plane(1), was.p1, now.p1, Component(src, from, forward, bd, 1), n, m, m, n);
      assert WrittenAt(to.Plane(2), was.p2, now.p2, Component(src, from, forward, bd, 2), n, m, m, n);
    }
  }

  method StoreSample(a: array<int>, j: int, v: int, ghost b: Buf, ghost was: seq<int>, ghost value: (int, int) -> int,
                     ghost n: nat, ghost m: nat)
    requires Written(b, was, a[..], value, n, m) && Place(b, |was|, m, n) && n < b.height && m < b.width
    requires j == Index(b, m, n) && v == value(m, n)
    modifies a
    ensures Written(b, was, a[..], value, n, m + 1)
  {
    hide *;
    WrittenPlace(b, was, a[..], value, n, m);
    WriteNext(b, was, a[..], value, n, m);
    ghost var before := a[..];
    a[j] := v;
    assert a[..] == before[j := v];
  }

  lemma WrittenPlace(b: Buf, was: seq<int>, now: seq<int>, value: (int, int) -> int, n: nat, m: nat)
    requires Written(b, was, now, value, n, m) && Place(b, |was|, m, n)
    ensures 0 <= Index(b, m, n) < |now|
  {
  }

  /** The body of the inner loop. */
  method ConvertPixel(s: seq<array<int>>, d: seq<array<int>>, i0: int, i1: int, i2: int, j0: int, j1: int, j2: int,
                      forward: bool, bd: nat, ghost inPlace: bool, ghost from: Layout, ghost to: Layout,
                      ghost src: Planes,
                      ghost was: Planes, ghost n: nat, ghost m: nat)
    requires SameOrApart(inPlace, s, from, d, to) && Progress(inPlace, s, from, d, to, src, was, forward, bd, n, m)
    requires n < to.height && m < to.width
    requires i0 == Index(from.Plane(0), m, n) && i1 == Index(from.Plane(1), m, n) && i2 == Index(from.Plane(2), m, n)
    requires j0 == Index(to.Plane(0), m, n) && j1 == Index(to.Plane(1), m, n) && j2 == Index(to.Plane(2), m, n)
    modifies d[0], d[1], d[2]
    ensures Progress(inPlace, s, from, d, to, src, was, forward, bd, n, m + 1)
  {
    ReadsSource(inPlace, s, from, d, to, src, was, forward, bd, n, m);
    hide Written, Convert, At, Index, Fits;
    var v := Convert(Triple(s[0][i0], s[1][i1], s[2][i2]), forward, bd);
    CellFits(to.Plane(0), |was.p0|, m, n);
    CellFits(to.Plane(1), |was.p1|, m, n);
    CellFits(to.Plane(2), |was.p2|, m, n);
    StoreSample(d[0], j0, v.p0, to.Plane(0), was.p0, Component(src, from, forward, bd, 0), n, m);
    StoreSample(d[1], j1, v.p1, to.Plane(1), was.p1, Component(src, from, forward, bd, 1), n, m);
    StoreSample(d[2], j2, v.p2, to.Plane(2), was.p2, Component(src, from, forward, bd, 2), n, m);
  }

  lemma LineConverted(inPlace: bool, s: seq<array<int>>, from: Layout, d: seq<array<int>>, to: Layout, src: Planes,
                      was: Planes,
                      forward: bool, bd: nat, n: nat)
    requires |s| == |d| == 3 && Progress(inPlace, s, from, d, to, src, was, forward, bd, n, to.width)
    ensures Progress(inPlace, s, from, d, to, src, was, forward, bd, n + 1, 0)
  {
    hide Written, Component;
    var now := Contents(d);
    LineWritten(to.Plane(0), was.p0, now.p0, Component(src, from, forward, bd, 0), n);
    LineWritten(to.Plane(1), was.p1, now.p1, Component(src, from, forward, bd, 1), n);
    LineWritten(to.Plane(2), was.p2, now.p2, Component(src, from, forward, bd, 2), n);
  }

  lemma NothingConverted(inPlace: bool, s: seq<array<int>>, from: Layout, d: seq<array<int>>, to: Layout,
                         forward: bool, bd: nat)
    requires SameOrApart(inPlace, s, from, d, to) && from.width == to.width && from.height == to.height
    requires from.FitsIn(s[0].Length, s[1].Length, s[2].Length) && to.FitsIn(d[0].Length, d[1].Length, d[2].Length)
    ensures Progress(inPlace, s, from, d, to, Contents(s), Contents(d), forward, bd, 0, 0)
  {
    hide Index, Fits;
  }

  /** The lines of three planes, by stride-walking pointers. */
  ghost predicate LineStarts(l: Layout, y: nat, p0: int, p1: int, p2: int) {
    p0 == Index(l.Plane(0), 0, y) && p1 == Index(l.Plane(1), 0, y) && p2 == Index(l.Plane(2), 0, y)
  }

  lemma LineColumns(l: Layout, y: nat, p0: int, p1: int, p2: int, x: int)
    requires LineStarts(l, y, p0, p1, p2)
    ensures Index(l.Plane(0), x, y) == p0 + x && Index(l.Plane(1), x, y) == p1 + x && Index(l.Plane(2), x, y) == p2 + x
    ensures LineStarts(l, y + 1, p0 + l.stride0, p1 + l.stride1, p2 + l.stride2)
  {
    NextLine(l.Plane(0), 0, y, 1);
    NextLine(l.Plane(1), 0, y, 1);
    NextLine(l.Plane(2), 0, y, 1);
  }

  lemma FirstLines(l: Layout)
    ensures LineStarts(l, 0, l.o0, l.o1, l.o2)
  {
  }

  method ConvertLine(s: seq<array<int>>, from: Layout, d: seq<array<int>>, to: Layout, forward: bool, bd: nat,
                     org0: int, org1: int, org2: int, dst0: int, dst1: int, dst2: int,
                     ghost inPlace: bool, ghost src: Planes, ghost was: Planes, ghost y: nat)
    requires SameOrApart(inPlace, s, from, d, to) && Progress(inPlace, s, from, d, to, src, was, forward, bd, y, 0)
    requires y < to.height && LineStarts(from, y, org0, org1, org2) && LineStarts(to, y, dst0, dst1, dst2)
    modifies d[0], d[1], d[2]
    ensures Progress(inPlace, s, from, d, to, src, was, forward, bd, y + 1, 0)
  {
    hide *;
    ThreeBuffers(inPlace, s, from, d, to);
    for x := 0 to to.width
      invariant Progress(inPlace, s, from, d, to, src, was, forward, bd, y, x)
    {
      LineColumns(from, y, org0, org1, org2, x);
      LineColumns(to, y, dst0, dst1, dst2, x);
      ConvertPixel(s, d, org0 + x, org1 + x, org2 + x, dst0 + x, dst1 + x, dst2 + x, forward, bd, inPlace, from, to,
                   src, was, y, x);
    }
    LineConverted(inPlace, s, from, d, to, src, was, forward, bd, y);
  }

  lemma ThreeBuffers(inPlace: bool, s: seq<array<int>>, from: Layout, d: seq<array<int>>, to: Layout)
    requires SameOrApart(inPlace, s, from, d, to)
    ensures |s| == |d| == 3
  {
  }

  /** The whole conversion; equal strides and equal sizes are checked first. */
  method ColorSpaceConvert(s: seq<array<int>>, from: Layout, d: seq<array<int>>, to: Layout, forward: bool, bd: nat,
                           ghost inPlace: bool)
    returns (ok: bool)
    requires SameOrApart(inPlace, s, from, d, to)
    requires from.FitsIn(s[0].Length, s[1].Length, s[2].Length) && to.FitsIn(d[0].Length, d[1].Length, d[2].Length)
    modifies d[0], d[1], d[2]
    ensures ok <==> from.EqualStrides() && to.EqualStrides() && from.width == to.width && from.height == to.height
    ensures ok ==> Converted(old(Contents(s)), from, old(Contents(d)), Contents(d), to, forward, bd, to.height, 0)
    ensures !ok ==> Contents(d) == old(Contents(d))
  {
    ok := from.EqualStrides() && to.EqualStrides() && from.width == to.width && from.height == to.height;
    if ok {
      ConvertLines(s, from, d, to, forward, bd, inPlace);
    }
  }

  method ConvertLines(s: seq<array<int>>, from: Layout, d: seq<array<int>>, to: Layout, forward: bool, bd: nat,
                      ghost inPlace: bool)
    requires SameOrApart(inPlace, s, from, d, to)
    requires from.FitsIn(s[0].Length, s[1].Length, s[2].Length) && to.FitsIn(d[0].Length, d[1].Length, d[2].Length)
    requires from.EqualStrides() && to.EqualStrides() && from.width == to.width && from.height == to.height
    modifies d[0], d[1], d[2]
    ensures Converted(old(Contents(s)), from, old(Contents(d)), Contents(d), to, forward, bd, to.height, 0)
  {
    hide *;
    ThreeBuffers(inPlace, s, from, d, to);
    ghost var src, was := Contents(s), Contents(d);
    NothingConverted(inPlace, s, from, d, to, forward, bd);
    FirstLines(from);
    FirstLines(to);
    var org0, org1, org2, dst0, dst1, dst2 := from.o0, from.o1, from.o2, to.o0, to.o1, to.o2;
    var strideOrg, strideDst := from.stride0, to.stride0;
    for y := 0 to to.height
      invariant Progress(inPlace, s, from, d, to, src, was, forward, bd, y, 0)
      invariant LineStarts(from, y, org0, org1, org2) && LineStarts(to, y, dst0, dst1, dst2)
    {
      ConvertLine(s, from, d, to, forward, bd, org0, org1, org2, dst0, dst1, dst2, inPlace, src, was, y);
      LineColumns(from, y, org0, org1, org2, 0);
      LineColumns(to, y, dst0, dst1, dst2, 0);
      StridesEqual(from);
      StridesEqual(to);
      org0, org1, org2 := org0 + strideOrg, org1 + strideOrg, org2 + strideOrg;
      dst0, dst1, dst2 := dst0 + strideDst, dst1 + strideDst, dst2 + strideDst;
    }
    ConversionDone(inPlace, s, from, d, to, src, was, forward, bd);
  }

  lemma StridesEqual(l: Layout)
    requires l.EqualStrides()
    ensures l.stride1 == l.stride0 && l.stride2 == l.stride0
  {
  }

  lemma ConversionDone(inPlace: bool, s: seq<array<int>>, from: Layout, d: seq<array<int>>, to: Layout, src: Planes,
                       was: Planes,
                       forward: bool, bd: nat)
    requires |s| == |d| == 3 && Progress(inPlace, s, from, d, to, src, was, forward, bd, to.height, 0)
    ensures Converted(src, from, was, Contents(d), to, forward, bd, to.height, 0)
  {
  }
}

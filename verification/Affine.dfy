/** The normal equations of the affine gradient search, accumulated in place over a block. */
module Affine {
  import opened Arith

  // ---- one sample ----

  /** A sample's horizontal and vertical derivative and its residual. */
  datatype Sample = Sample(g0: int, g1: int, residue: int)

  /** Centre of the 4x4 block a coordinate lies in. */
  function Centre(k: nat): nat {
    (k / 4) * 4 + 2
  }

  /** How the sample's value depends on the motion parameters: six of them, or four. */
  function Regressors(six: bool, s: Sample, cx: nat, cy: nat): (c: seq<int>)
    ensures |c| == if six then 6 else 4
  {
    if six then [s.g0, cx * s.g0, s.g1, cx * s.g1, cy * s.g0, cy * s.g1]
    else [s.g0, cx * s.g0 + cy * s.g1, s.g1, cy * s.g0 - cx * s.g1]
  }

  /** A row of the overdetermined system: the regressors and the residual. */
  datatype Row = Row(c: seq<int>, residue: int)

  ghost predicate Wide(rows: seq<Row>, n: nat) {
    forall i :: 0 <= i < |rows| ==> |rows[i].c| == n
  }

  // ---- the equations as sums ----

  /** Sum over the rows of the product of two regressors. */
  function Gram(rows: seq<Row>, n: nat, a: nat, b: nat): int
    requires Wide(rows, n) && a < n && b < n
  {
    if rows == [] then 0
    else
      var last := rows[|rows| - 1];
      Gram(rows[..|rows| - 1], n, a, b) + last.c[a] * last.c[b]
  }

  /** Eight times the sum of a regressor times the residual. */
  function Moment(rows: seq<Row>, n: nat, a: nat): int
    requires Wide(rows, n) && a < n
  {
    if rows == [] then 0
    else
      var last := rows[|rows| - 1];
      Moment(rows[..|rows| - 1], n, a) + (last.c[a] * last.residue) * 8
  }

  lemma {:induction false} GramSymmetric(rows: seq<Row>, n: nat, a: nat, b: nat)
    requires Wide(rows, n) && a < n && b < n
    ensures Gram(rows, n, a, b) == Gram(rows, n, b, a)
  {
    if rows != [] {
      GramSymmetric(rows[..|rows| - 1], n, a, b);
    }
  }

  // ---- positive semidefinite ----

  function Dot(v: seq<int>, c: seq<int>, m: nat): int
    requires m <= |v| && m <= |c|
  {
    if m == 0 then 0 else Dot(v, c, m - 1) + v[m - 1] * c[m - 1]
  }

  /** A row of the matrix times v. */
  function RowTimes(rows: seq<Row>, n: nat, v: seq<int>, a: nat, m: nat): int
    requires Wide(rows, n) && |v| == n && a < n && m <= n
  {
    if m == 0 then 0 else RowTimes(rows, n, v, a, m - 1) + v[m - 1] * Gram(rows, n, a, m - 1)
  }

  /** v, transposed, times the matrix times v; m rows of it. */
  function Quadratic(rows: seq<Row>, n: nat, v: seq<int>, m: nat): int
    requires Wide(rows, n) && |v| == n && m <= n
  {
    if m == 0 then 0 else Quadratic(rows, n, v, m - 1) + v[m - 1] * RowTimes(rows, n, v, m - 1, n)
  }

  lemma Distribute(x: int, a: int, b: int)
    ensures x * (a + b) == x * a + x * b
  {
  }

  lemma Reorder(x: int, a: int, b: int)
    ensures x * (a * b) == a * (x * b)
  {
  }

  lemma {:induction false} RowTimesGrows(rows: seq<Row>, r: Row, n: nat, v: seq<int>, a: nat, m: nat)
    requires Wide(rows, n) && |r.c| == n && |v| == n && a < n && m <= n
    ensures Wide(rows + [r], n)
    ensures RowTimes(rows + [r], n, v, a, m) == RowTimes(rows, n, v, a, m) + r.c[a] * Dot(v, r.c, m)
  {
    if m > 0 {
      RowTimesGrows(rows, r, n, v, a, m - 1);
      assert (rows + [r])[..|rows|] == rows;
      Distribute(v[m - 1], Gram(rows, n, a, m - 1), r.c[a] * r.c[m - 1]);
      Distribute(r.c[a], Dot(v, r.c, m - 1), v[m - 1] * r.c[m - 1]);
      Reorder(v[m - 1], r.c[a], r.c[m - 1]);
    }
  }

  lemma {:induction false} QuadraticGrows(rows: seq<Row>, r: Row, n: nat, v: seq<int>, m: nat)
    requires Wide(rows, n) && |r.c| == n && |v| == n && m <= n
    ensures Wide(rows + [r], n)
    ensures Quadratic(rows + [r], n, v, m) == Quadratic(rows, n, v, m) + Dot(v, r.c, m) * Dot(v, r.c, n)
  {
    hide *;
    if m == 0 {
      QuadraticNone(rows, r, n, v);
    } else {
      var d := Dot(v, r.c, n);
      QuadraticGrows(rows, r, n, v, m - 1);
      RowTimesGrows(rows, r, n, v, m - 1, n);
      QuadraticNext(rows, n, v, m);
      QuadraticNext(rows + [r], n, v, m);
      DotNext(v, r.c, m);
      Gather(v[m - 1], RowTimes(rows, n, v, m - 1, n), r.c[m - 1], d, Dot(v, r.c, m - 1));
    }
  }

  lemma QuadraticNone(rows: seq<Row>, r: Row, n: nat, v: seq<int>)
    requires Wide(rows, n) && |r.c| == n && |v| == n
    ensures Wide(rows + [r], n)
    ensures Quadratic(rows + [r], n, v, 0) == Quadratic(rows, n, v, 0) + Dot(v, r.c, 0) * Dot(v, r.c, n)
  {
  }

  lemma QuadraticNext(rows: seq<Row>, n: nat, v: seq<int>, m: nat)
    requires Wide(rows, n) && |v| == n && 0 < m <= n
    ensures Quadratic(rows, n, v, m) == Quadratic(rows, n, v, m - 1) + v[m - 1] * RowTimes(rows, n, v, m - 1, n)
  {
    hide RowTimes;
  }

  lemma DotNext(v: seq<int>, c: seq<int>, m: nat)
    requires 0 < m <= |v| && m <= |c|
    ensures Dot(v, c, m) == Dot(v, c, m - 1) + v[m - 1] * c[m - 1]
  {
  }

  lemma Gather(x: int, t: int, c: int, d: int, e: int)
    ensures e * d + x * (t + c * d) == x * t + (e + x * c) * d
  {
    Distribute(x, t, c * d);
    Distribute(d, e, x * c);
    Reorder(x, d, c);
  }

  lemma {:induction false} QuadraticOfNone(n: nat, v: seq<int>, m: nat)
    requires |v| == n && m <= n
    ensures Quadratic([], n, v, m) == 0
  {
    if m > 0 {
      QuadraticOfNone(n, v, m - 1);
      RowTimesNone(n, v, m - 1, n);
    }
  }

  lemma {:induction false} RowTimesNone(n: nat, v: seq<int>, a: nat, m: nat)
    requires |v| == n && a < n && m <= n
    ensures RowTimes([], n, v, a, m) == 0
  {
    if m > 0 {
      RowTimesNone(n, v, a, m - 1);
    }
  }

  /** The matrix is positive semidefinite: no integer vector makes the quadratic form negative. */
  lemma {:induction false} QuadraticNonNegative(rows: seq<Row>, n: nat, v: seq<int>)
    requires Wide(rows, n) && |v| == n
    ensures Quadratic(rows, n, v, n) >= 0
  {
    if rows == [] {
      QuadraticOfNone(n, v, n);
    } else {
      var front, last := rows[..|rows| - 1], rows[|rows| - 1];
      hide Quadratic, Dot;
      QuadraticNonNegative(front, n, v);
      QuadraticGrows(front, last, n, v, n);
      assert front + [last] == rows;
      Square(Dot(v, last.c, n));
    }
  }

  lemma Square(x: int)
    ensures x * x >= 0
  {
  }

  // ---- four parameters from six ----

  /** A sample of a block and the centre of its 4x4 block. */
  datatype Point = Point(s: Sample, cx: nat, cy: nat)

  /** The system's rows for a list of points. */
  function Rows(six: bool, pts: seq<Point>): (r: seq<Row>)
    ensures |r| == |pts| && Wide(r, if six then 6 else 4)
  {
    if pts == [] then []
    else
      var last := pts[|pts| - 1];
      Rows(six, pts[..|pts| - 1]) + [Row(Regressors(six, last.s, last.cx, last.cy), last.s.residue)]
  }

  /** Each of the four regressors is one of the six, plus or minus another or nothing. */
  function First(a: nat): (r: nat)
    ensures r < 6
  {
    if a == 1 then 1 else if a == 2 then 2 else if a == 3 then 4 else 0
  }

  function Second(a: nat): (r: nat)
    ensures r < 6
  {
    if a == 1 then 5 else if a == 3 then 3 else 0
  }

  function Sign(a: nat): int {
    if a == 1 then 1 else if a == 3 then -1 else 0
  }

  lemma RegressorImage(s: Sample, cx: nat, cy: nat, a: nat)
    requires a < 4
    ensures Regressors(false, s, cx, cy)[a]
         == Regressors(true, s, cx, cy)[First(a)] + Sign(a) * Regressors(true, s, cx, cy)[Second(a)]
  {
  }

  /** The product of two such combinations. */
  function Combine(s: int, t: int, ff: int, fs: int, sf: int, ss: int): int {
    ff + t * fs + s * sf + s * t * ss
  }

  lemma CombineProduct(x: int, y: int, s: int, u: int, v: int, t: int)
    requires s == 0 || s == 1 || s == -1
    requires t == 0 || t == 1 || t == -1
    ensures (x + s * y) * (u + t * v) == Combine(s, t, x * u, x * v, y * u, y * v)
  {
    if s == 1 && t == 1 {
      assert (x + y) * (u + v) == x * u + x * v + y * u + y * v;
    } else if s == 1 && t == -1 {
      assert (x + y) * (u - v) == x * u - x * v + y * u - y * v;
    } else if s == -1 && t == 1 {
      assert (x - y) * (u + v) == x * u + x * v - y * u - y * v;
    } else if s == -1 && t == -1 {
      assert (x - y) * (u - v) == x * u - x * v - y * u + y * v;
    }
  }

  lemma CombineSum(s: int, t: int, a: int, b: int, c: int, d: int, e: int, f: int, g: int, h: int)
    requires s == 0 || s == 1 || s == -1
    requires t == 0 || t == 1 || t == -1
    ensures Combine(s, t, a + e, b + f, c + g, d + h) == Combine(s, t, a, b, c, d) + Combine(s, t, e, f, g, h)
  {
  }

  /** An entry of the matrix for a block. */
  function Entry(six: bool, pts: seq<Point>, a: nat, b: nat): int
    requires a < (if six then 6 else 4) && b < (if six then 6 else 4)
  {
    Gram(Rows(six, pts), if six then 6 else 4, a, b)
  }

  /** The six-parameter entries combined as two of the four regressors are. */
  function Imaged(pts: seq<Point>, a: nat, b: nat): int {
    Combine(Sign(a), Sign(b), Entry(true, pts, First(a), First(b)), Entry(true, pts, First(a), Second(b)),
            Entry(true, pts, Second(a), First(b)), Entry(true, pts, Second(a), Second(b)))
  }

  /** The four-parameter matrix is the image of the six-parameter one under a fixed linear map. */
  lemma {:induction false} FourIsImageOfSix(pts: seq<Point>, a: nat, b: nat)
    requires a < 4 && b < 4
    ensures Entry(false, pts, a, b) == Imaged(pts, a, b)
  {
    if pts != [] {
      hide *;
      var front, last := pts[..|pts| - 1], pts[|pts| - 1];
      FourIsImageOfSix(front, a, b);
      EntryStep(false, front, last, a, b);
      ImagedStep(front, last, a, b);
      assert front + [last] == pts;
    }
  }

  lemma EntryStep(six: bool, front: seq<Point>, last: Point, a: nat, b: nat)
    requires a < (if six then 6 else 4) && b < (if six then 6 else 4)
    ensures Entry(six, front + [last], a, b)
         == Entry(six, front, a, b) +
            Regressors(six, last.s, last.cx, last.cy)[a] * Regressors(six, last.s, last.cx, last.cy)[b]
  {
    RowsGrow(six, front, last);
    hide Rows, Regressors;
    assert (Rows(six, front) + [Row(Regressors(six, last.s, last.cx, last.cy),
                                    last.s.residue)])[..|front|] == Rows(six, front);
  }

  lemma RowsGrow(six: bool, front: seq<Point>, last: Point)
    ensures Rows(six, front + [last]) == Rows(six, front) + [Row(Regressors(six, last.s, last.cx, last.cy),
                                                                 last.s.residue)]
  {
    assert (front + [last])[..|front|] == front;
  }

  lemma ImagedStep(front: seq<Point>, last: Point, a: nat, b: nat)
    requires a < 4 && b < 4
    ensures Imaged(front + [last], a, b)
         == Imaged(front, a, b) +
            Regressors(false, last.s, last.cx, last.cy)[a] * Regressors(false, last.s, last.cx, last.cy)[b]
  {
    hide Entry, Regressors, Combine;
    RegressorImage(last.s, last.cx, last.cy, a);
    RegressorImage(last.s, last.cx, last.cy, b);
    EntryStep(true, front, last, First(a), First(b));
    EntryStep(true, front, last, First(a), Second(b));
    EntryStep(true, front, last, Second(a), First(b));
    EntryStep(true, front, last, Second(a), Second(b));
    var c := Regressors(true, last.s, last.cx, last.cy);
    CombineProduct(c[First(a)], c[Second(a)], Sign(a), c[First(b)], c[Second(b)], Sign(b));
    CombineSum(Sign(a), Sign(b), Entry(true, front, First(a), First(b)), Entry(true, front, First(a), Second(b)),
               Entry(true, front, Second(a), First(b)), Entry(true, front, Second(a), Second(b)),
               c[First(a)] * c[First(b)], c[First(a)] * c[Second(b)], c[Second(a)] * c[First(b)],
               c[Second(a)] * c[Second(b)]);
  }

  // ---- 64-bit sums ----

  predicate AtMost(x: int, bound: int) {
    -bound <= x <= bound
  }

  lemma MagnitudeProduct(x: nat, y: nat, m: nat, n: nat)
    requires x <= m && y <= n
    ensures 0 <= x * y <= m * n
  {
    MulLe(x, m, y);
    MulLe(y, n, m);
  }

  lemma ProductAtMost(x: int, y: int, m: nat, n: nat)
    requires AtMost(x, m) && AtMost(y, n)
    ensures AtMost(x * y, m * n)
  {
    if x >= 0 && y >= 0 {
      MagnitudeProduct(x, y, m, n);
    } else if x >= 0 {
      MagnitudeProduct(x, 0 - y, m, n);
      assert x * (0 - y) == 0 - x * y;
    } else if y >= 0 {
      MagnitudeProduct(0 - x, y, m, n);
      assert (0 - x) * y == 0 - x * y;
    } else {
      MagnitudeProduct(0 - x, 0 - y, m, n);
      assert (0 - x) * (0 - y) == x * y;
    }
  }

  /** Derivatives and residuals of 12-bit samples. */
  predicate SmallSample(s: Sample) {
    AtMost(s.g0, 16380) && AtMost(s.g1, 16380) && AtMost(s.residue, 4095)
  }

  /** Derivatives of 12-bit samples, at most 4 times 4095, and positions in a 128x128 block. */
  ghost predicate Small(p: Point) {
    SmallSample(p.s) && p.cx <= 126 && p.cy <= 126
  }

  const REGRESSOR_MAX: nat := 4127760
  const SQUARE_MAX: nat := 17038402617600

  lemma RegressorsSmall(six: bool, p: Point, a: nat)
    requires Small(p) && a < (if six then 6 else 4)
    ensures AtMost(Regressors(six, p.s, p.cx, p.cy)[a], REGRESSOR_MAX)
  {
    ProductAtMost(p.cx, p.s.g0, 126, 16380);
    ProductAtMost(p.cx, p.s.g1, 126, 16380);
    ProductAtMost(p.cy, p.s.g0, 126, 16380);
    ProductAtMost(p.cy, p.s.g1, 126, 16380);
  }

  ghost predicate AllSmall(pts: seq<Point>) {
    forall i :: 0 <= i < |pts| ==> Small(pts[i])
  }

  /** Every partial sum of at most 128x128 samples stays below 2^63. */
  lemma EntriesFit(six: bool, pts: seq<Point>, a: nat, b: nat)
    requires AllSmall(pts) && |pts| <= 128 * 128 && a < (if six then 6 else 4) && b < (if six then 6 else 4)
    ensures AtMost(Entry(six, pts, a, b), 0x7FFF_FFFF_FFFF_FFFF)
  {
    EntryAtMost(six, pts, a, b);
  }

  lemma SumAtMost(x: int, y: int, n: nat)
    requires AtMost(x, n * SQUARE_MAX) && AtMost(y, REGRESSOR_MAX * REGRESSOR_MAX)
    ensures AtMost(x + y, (n + 1) * SQUARE_MAX)
  {
  }

  lemma {:induction false} EntryAtMost(six: bool, pts: seq<Point>, a: nat, b: nat)
    requires AllSmall(pts) && a < (if six then 6 else 4) && b < (if six then 6 else 4)
    ensures AtMost(Entry(six, pts, a, b), |pts| * SQUARE_MAX)
  {
    if pts != [] {
      var front, last := pts[..|pts| - 1], pts[|pts| - 1];
      EntryAtMost(six, front, a, b);
      hide Entry, Regressors, Small;
      EntryStep(six, front, last, a, b);
      assert front + [last] == pts;
      RegressorsSmall(six, last, a);
      RegressorsSmall(six, last, b);
      var c := Regressors(six, last.s, last.cx, last.cy);
      ProductAtMost(c[a], c[b], REGRESSOR_MAX, REGRESSOR_MAX);
      SumAtMost(Entry(six, front, a, b), c[a] * c[b], |front|);
    }
  }

  // ---- the accumulation ----

  /** The right-hand side of an equation for a block. */
  function TotalMoment(six: bool, pts: seq<Point>, a: nat): int
    requires a < (if six then 6 else 4)
  {
    Moment(Rows(six, pts), if six then 6 else 4, a)
  }

  lemma MomentStep(six: bool, front: seq<Point>, last: Point, a: nat)
    requires a < (if six then 6 else 4)
    ensures TotalMoment(six, front + [last], a)
         == TotalMoment(six, front, a) + (Regressors(six, last.s, last.cx, last.cy)[a] * last.s.residue) * 8
  {
    RowsGrow(six, front, last);
    hide Rows, Regressors;
    assert (Rows(six, front) + [Row(Regressors(six, last.s, last.cx, last.cy),
                                    last.s.residue)])[..|front|] == Rows(six, front);
  }

  /** The regressors' products and the residual's, in columns 1 to n of the coefficient array. */
  function Added(c: seq<int>, residue: int, q: nat, x: nat): int {
    if !(1 <= q <= |c|) then 0
    else if x < |c| then c[q - 1] * c[x]
    else if x == |c| then (c[q - 1] * residue) * 8
    else 0
  }

  /** Columns before col and, of that column, rows before row have been added to. */
  predicate Passed(n: nat, col: nat, row: nat, q: nat, x: nat) {
    1 <= q && (q - 1 < col || (q - 1 == col && x < row))
  }

  ghost predicate PartAdded(m: array2<int>, before: (nat, nat) -> int, c: seq<int>, residue: int, col: nat, row: nat)
    reads m
  {
    forall q: nat, x: nat :: q < m.Length0 && x < m.Length1 ==>
      m[q, x] == before(q, x) + if Passed(|c|, col, row, q, x) then Added(c, residue, q, x) else 0
  }

  method AddColumn(m: array2<int>, c: seq<int>, residue: int, col: nat, ghost before: (nat, nat) -> int)
    requires m.Length0 == m.Length1 == 7 && col < |c| <= 6 && PartAdded(m, before, c, residue, col, 0)
    modifies m
    ensures PartAdded(m, before, c, residue, col + 1, 0)
  {
    for row := 0 to |c|
      invariant PartAdded(m, before, c, residue, col, row)
    {
      m[col + 1, row] := m[col + 1, row] + c[col] * c[row];
    }
    m[col + 1, |c|] := m[col + 1, |c|] + (c[col] * residue) * 8;
  }

  /** One sample's contribution. */
  method AddSample(m: array2<int>, c: seq<int>, residue: int, ghost before: (nat, nat) -> int)
    requires m.Length0 == m.Length1 == 7 && |c| <= 6 && PartAdded(m, before, c, residue, 0, 0)
    modifies m
    ensures PartAdded(m, before, c, residue, |c|, 0)
  {
    hide PartAdded;
    for col := 0 to |c|
      invariant PartAdded(m, before, c, residue, col, 0)
    {
      AddColumn(m, c, residue, col, before);
    }
  }

  /** The derivative and residual buffers, each with its own stride. */
  datatype Input = Input(d0: seq<int>, d1: seq<int>, residue: seq<int>, stride: nat, residueStride: nat, width: nat,
                         height: nat) {
    /** The places the program reads; it does not use the residual's stride. */
    ghost predicate Valid() {
      var last := if height == 0 then 0 else (height - 1) * stride + width;
      last <= |d0| && last <= |d1| && last <= |residue|
    }

    /** The residual's block lies within its buffer. */
    ghost predicate HoldsResidual() {
      (if height == 0 then 0 else (height - 1) * residueStride + width) <= |residue|
    }
  }

  lemma InBuffers(i: Input, j: nat, k: nat)
    requires i.Valid() && j < i.height && k < i.width
    ensures 0 <= j * i.stride + k < (i.height - 1) * i.stride + i.width
  {
    MulLe(0, j, i.stride);
    MulLe(j, i.height - 1, i.stride);
  }

  function PointAt(i: Input, j: nat, k: nat): Point
    requires i.Valid() && j < i.height && k < i.width
  {
    InBuffers(i, j, k);
    var idx := j * i.stride + k;
    Point(Sample(i.d0[idx], i.d1[idx], i.residue[idx]), Centre(k), Centre(j))
  }

  // ---- which residual is read ----

  lemma InResidual(i: Input, j: nat, k: nat)
    requires i.HoldsResidual() && j < i.height && k < i.width
    ensures 0 <= j * i.residueStride + k < |i.residue|
  {
    MulLe(0, j, i.residueStride);
    MulLe(j, i.height - 1, i.residueStride);
  }

  function ResidualAt(i: Input, j: nat, k: nat): int
    requires i.HoldsResidual() && j < i.height && k < i.width
  {
    InResidual(i, j, k);
    i.residue[j * i.residueStride + k]
  }

  /** Every sample is paired with its own residual. */
  ghost predicate ReadsResidual(i: Input)
    requires i.Valid() && i.HoldsResidual()
  {
    forall j: nat, k: nat :: j < i.height && k < i.width ==> PointAt(i, j, k).s.residue == ResidualAt(i, j, k)
  }

  ghost predicate Shaped(i: Input, stride: nat, residueStride: nat, width: nat, height: nat) {
    && i.Valid() && i.HoldsResidual() && i.stride == stride && i.residueStride == residueStride
    && i.width == width && i.height == height
  }

  lemma SecondLine(i: Input)
    requires i.Valid() && i.HoldsResidual() && i.height > 1 && i.width > 0 && i.stride != i.residueStride
    requires forall n :: 0 <= n < |i.residue| ==> i.residue[n] == n
    ensures !ReadsResidual(i)
  {
    InBuffers(i, 1, 0);
    InResidual(i, 1, 0);
    assert PointAt(i, 1, 0).s.residue == i.stride && ResidualAt(i, 1, 0) == i.residueStride;
  }

  /** A residual whose samples are all different. */
  lemma Ramp(stride: nat, residueStride: nat, width: nat, height: nat) returns (i: Input)
    requires stride != residueStride && height > 1 && width > 0
    ensures Shaped(i, stride, residueStride, width, height) && !ReadsResidual(i)
  {
    hide ReadsResidual;
    MulLe(0, height - 1, stride);
    MulLe(0, height - 1, residueStride);
    var last0, last1 := (height - 1) * stride + width, (height - 1) * residueStride + width;
    assert 0 <= last0 && 0 <= last1;
    var ramp := seq(last0 + last1, t => t);
    i := Input(ramp, ramp, ramp, stride, residueStride, width, height);
    SecondLine(i);
  }

  /** The equations pair every sample with its own residual, whatever the buffers hold, exactly if both strides
      agree or there is no second line. */
  lemma ResidualStrideMatters(stride: nat, residueStride: nat, width: nat, height: nat)
    ensures (forall i: Input :: Shaped(i, stride, residueStride, width, height) ==> ReadsResidual(i)) <==>
            (stride == residueStride || height <= 1 || width == 0)
  {
    if stride == residueStride || height <= 1 || width == 0 {
      forall i: Input | Shaped(i, stride, residueStride, width, height)
        ensures ReadsResidual(i)
      {
        forall j: nat, k: nat | j < i.height && k < i.width
          ensures PointAt(i, j, k).s.residue == ResidualAt(i, j, k)
        {
          assert stride == residueStride || j == 0;
        }
      }
    } else {
      var i := Ramp(stride, residueStride, width, height);
    }
  }

  // ---- accumulation over the block ----

  /** The samples before (j, k), line by line. */
  function Points(i: Input, j: nat, k: nat): (pts: seq<Point>)
    requires i.Valid() && j <= i.height && k <= i.width && (j == i.height ==> k == 0)
    decreases j, k
  {
    if k > 0 then Points(i, j, k - 1) + [PointAt(i, j, k - 1)]
    else if j > 0 then Points(i, j - 1, i.width)
    else []
  }

  /** The array holds what it held before plus the equations of these points. */
  ghost predicate Accumulated(m: array2<int>, base: (nat, nat) -> int, six: bool, pts: seq<Point>)
    reads m
  {
    forall q: nat, x: nat :: q < m.Length0 && x < m.Length1 ==> m[q, x] == base(q, x) + Total(six, pts, q, x)
  }

  /** An array cell's share: a matrix entry, a right-hand side, or nothing. */
  function Total(six: bool, pts: seq<Point>, q: nat, x: nat): int {
    var n := if six then 6 else 4;
    if !(1 <= q <= n) then 0
    else if x < n then Entry(six, pts, q - 1, x)
    else if x == n then TotalMoment(six, pts, q - 1)
    else 0
  }

  lemma TotalStep(six: bool, front: seq<Point>, last: Point, q: nat, x: nat)
    ensures Total(six, front + [last], q, x)
         == Total(six, front, q, x) + Added(Regressors(six, last.s, last.cx, last.cy), last.s.residue, q, x)
  {
    hide Regressors, Entry, TotalMoment;
    var n := if six then 6 else 4;
    if 1 <= q <= n {
      if x < n {
        EntryStep(six, front, last, q - 1, x);
      } else if x == n {
        MomentStep(six, front, last, q - 1);
      }
    }
  }

  // ---- the affine model ----

  /** What a change v of the motion parameters does to a sample: its derivatives times the displacement at
      (cx, cy); two parameters for the shift, and four or two for the linear part. */
  function Effect(six: bool, g0: int, g1: int, cx: int, cy: int, v: seq<int>): int
    requires |v| == if six then 6 else 4
  {
    if six then g0 * (v[0] + cx * v[1] + cy * v[4]) + g1 * (v[2] + cx * v[3] + cy * v[5])
    else g0 * (v[0] + cx * v[1] + cy * v[3]) + g1 * (v[2] + cy * v[1] - cx * v[3])
  }

  /** The effect on a sample of the block; it moves like the centre of its 4x4 block. */
  function EffectAt(i: Input, six: bool, j: nat, k: nat, v: seq<int>): int
    requires i.Valid() && j < i.height && k < i.width && |v| == if six then 6 else 4
  {
    InBuffers(i, j, k);
    Effect(six, i.d0[j * i.stride + k], i.d1[j * i.stride + k], k - k % 4 + 2, j - j % 4 + 2, v)
  }

  /** One parameter changed by one. */
  function Unit(six: bool, a: nat): (v: seq<int>)
    ensures |v| == if six then 6 else 4
  {
    seq(if six then 6 else 4, t => if t == a then 1 else 0)
  }

  /** Over the samples before (j, k): the products of two effects. */
  function EffectSum(i: Input, six: bool, u: seq<int>, v: seq<int>, j: nat, k: nat): int
    requires i.Valid() && j <= i.height && k <= i.width && (j == i.height ==> k == 0)
    requires |u| == |v| == if six then 6 else 4
    decreases j, k
  {
    if k > 0 then
      EffectSum(i, six, u, v, j, k - 1) + EffectAt(i, six, j, k - 1, u) * EffectAt(i, six, j, k - 1, v)
    else if j > 0 then EffectSum(i, six, u, v, j - 1, i.width)
    else 0
  }

  /** Over the same samples: the products of an effect and the residual. */
  function ResidueSum(i: Input, six: bool, v: seq<int>, j: nat, k: nat): int
    requires i.Valid() && j <= i.height && k <= i.width && (j == i.height ==> k == 0)
    requires |v| == if six then 6 else 4
    decreases j, k
  {
    if k > 0 then
      InBuffers(i, j, k - 1);
      ResidueSum(i, six, v, j, k - 1) + EffectAt(i, six, j, k - 1, v) * i.residue[j * i.stride + k - 1]
    else if j > 0 then ResidueSum(i, six, v, j - 1, i.width)
    else 0
  }

  /** What the samples before (j, k) add to a cell: the products of the effects of two parameters, and in the column
      after them eight times the products with the residual. */
  function Equation(i: Input, six: bool, j: nat, k: nat, q: nat, x: nat): int
    requires i.Valid() && j <= i.height && k <= i.width && (j == i.height ==> k == 0)
  {
    var n := if six then 6 else 4;
    if !(1 <= q <= n) || x > n then 0
    else if x < n then EffectSum(i, six, Unit(six, q - 1), Unit(six, x), j, k)
    else 8 * ResidueSum(i, six, Unit(six, q - 1), j, k)
  }

  /** The array holds what it held before plus the equations of the whole block. */
  ghost predicate HoldsEquations(m: array2<int>, base: (nat, nat) -> int, i: Input, six: bool)
    requires i.Valid()
    reads m
  {
    forall q: nat, x: nat :: q < m.Length0 && x < m.Length1 ==>
      m[q, x] == base(q, x) + Equation(i, six, i.height, 0, q, x)
  }

  /** A position and the centre of its 4x4 block lie in the same block. */
  lemma CentreMeans(k: nat)
    ensures Centre(k) == k - k % 4 + 2 && Centre(k) / 4 == k / 4 && Centre(k) % 4 == 2
  {
  }

  lemma UnitAt(six: bool, a: nat, t: nat)
    requires t < if six then 6 else 4
    ensures Unit(six, a)[t] == if t == a then 1 else 0
  {
  }

  lemma SixEffects(g0: int, g1: int, cx: int, cy: int, v: seq<int>)
    requires |v| == 6
    ensures Effect(true, g0, g1, cx, cy, v)
         == g0 * v[0] + cx * g0 * v[1] + g1 * v[2] + cx * g1 * v[3] + cy * g0 * v[4] + cy * g1 * v[5]
  {
    assert g0 * (v[0] + cx * v[1] + cy * v[4]) == g0 * v[0] + cx * g0 * v[1] + cy * g0 * v[4];
    assert g1 * (v[2] + cx * v[3] + cy * v[5]) == g1 * v[2] + cx * g1 * v[3] + cy * g1 * v[5];
  }

  lemma FourEffects(g0: int, g1: int, cx: int, cy: int, v: seq<int>)
    requires |v| == 4
    ensures Effect(false, g0, g1, cx, cy, v)
         == g0 * v[0] + (cx * g0 + cy * g1) * v[1] + g1 * v[2] + (cy * g0 - cx * g1) * v[3]
  {
    assert g0 * (v[0] + cx * v[1] + cy * v[3]) == g0 * v[0] + cx * g0 * v[1] + cy * g0 * v[3];
    assert g1 * (v[2] + cy * v[1] - cx * v[3]) == g1 * v[2] + cy * g1 * v[1] - cx * g1 * v[3];
    assert (cx * g0 + cy * g1) * v[1] == cx * g0 * v[1] + cy * g1 * v[1];
    assert (cy * g0 - cx * g1) * v[3] == cy * g0 * v[3] - cx * g1 * v[3];
  }

  /** The regressors are the affine model: their product with any change of the parameters is its effect. */
  lemma RegressorsAreEffects(six: bool, s: Sample, cx: nat, cy: nat, v: seq<int>)
    requires |v| == if six then 6 else 4
    ensures Dot(v, Regressors(six, s, cx, cy), |v|) == Effect(six, s.g0, s.g1, cx, cy, v)
  {
    var c := Regressors(six, s, cx, cy);
    if six {
      SixEffects(s.g0, s.g1, cx, cy, v);
      DotOfSix(v, c);
    } else {
      FourEffects(s.g0, s.g1, cx, cy, v);
      DotOfFour(v, c);
    }
    hide Dot, Effect;
  }

  lemma DotOfFour(v: seq<int>, c: seq<int>)
    requires |v| >= 4 && |c| >= 4
    ensures Dot(v, c, 4) == v[0] * c[0] + v[1] * c[1] + v[2] * c[2] + v[3] * c[3]
  {
    hide *;
    DotNone(v, c);
    DotNext(v, c, 1);
    DotNext(v, c, 2);
    DotNext(v, c, 3);
    DotNext(v, c, 4);
  }

  lemma DotNone(v: seq<int>, c: seq<int>)
    ensures Dot(v, c, 0) == 0
  {
  }

  lemma DotOfSix(v: seq<int>, c: seq<int>)
    requires |v| >= 6 && |c| >= 6
    ensures Dot(v, c, 6) == v[0] * c[0] + v[1] * c[1] + v[2] * c[2] + v[3] * c[3] + v[4] * c[4] + v[5] * c[5]
  {
    hide *;
    DotOfFour(v, c);
    DotNext(v, c, 5);
    DotNext(v, c, 6);
  }

  lemma {:induction false} DotOfUnit(six: bool, a: nat, c: seq<int>, m: nat)
    requires m <= |c| == (if six then 6 else 4)
    ensures Dot(Unit(six, a), c, m) == if a < m then c[a] else 0
  {
    hide *;
    if m == 0 {
      DotNone(Unit(six, a), c);
    } else {
      DotOfUnit(six, a, c, m - 1);
      DotNext(Unit(six, a), c, m);
      UnitAt(six, a, m - 1);
    }
  }

  /** So a regressor is the effect of its parameter. */
  lemma RegressorIsEffect(six: bool, s: Sample, cx: nat, cy: nat, a: nat)
    requires a < if six then 6 else 4
    ensures Regressors(six, s, cx, cy)[a] == Effect(six, s.g0, s.g1, cx, cy, Unit(six, a))
  {
    hide *;
    RegressorsAreEffects(six, s, cx, cy, Unit(six, a));
    DotOfUnit(six, a, Regressors(six, s, cx, cy), if six then 6 else 4);
  }

  lemma PointEffect(i: Input, six: bool, j: nat, k: nat, a: nat)
    requires i.Valid() && j < i.height && k < i.width && a < if six then 6 else 4
    ensures var p := PointAt(i, j, k); Regressors(six, p.s, p.cx, p.cy)[a] == EffectAt(i, six, j, k, Unit(six, a))
  {
    hide Regressors, Effect, Unit, Centre;
    CentreMeans(k);
    CentreMeans(j);
    var p := PointAt(i, j, k);
    RegressorIsEffect(six, p.s, p.cx, p.cy, a);
  }

  /** The accumulated equations are those of the affine model. */
  lemma {:induction false} TotalIsEquation(i: Input, six: bool, j: nat, k: nat, q: nat, x: nat)
    requires i.Valid() && j <= i.height && k <= i.width && (j == i.height ==> k == 0)
    ensures Total(six, Points(i, j, k), q, x) == Equation(i, six, j, k, q, x)
    decreases j, k
  {
    hide *;
    if k > 0 {
      TotalIsEquation(i, six, j, k - 1, q, x);
      PointsNext(i, j, k);
      var p := PointAt(i, j, k - 1);
      TotalStep(six, Points(i, j, k - 1), p, q, x);
      EquationNext(i, six, j, k, q, x);
    } else if j > 0 {
      TotalIsEquation(i, six, j - 1, i.width, q, x);
      PointsNewLine(i, j);
      EquationNewLine(i, six, j, q, x);
    } else {
      TotalOfNone(i, six, q, x);
    }
  }

  lemma PointsNext(i: Input, j: nat, k: nat)
    requires i.Valid() && j < i.height && 0 < k <= i.width
    ensures Points(i, j, k) == Points(i, j, k - 1) + [PointAt(i, j, k - 1)]
  {
    hide PointAt;
  }

  lemma PointsNewLine(i: Input, j: nat)
    requires i.Valid() && 0 < j <= i.height
    ensures Points(i, j, 0) == Points(i, j - 1, i.width)
  {
    hide PointAt;
  }

  lemma EquationNewLine(i: Input, six: bool, j: nat, q: nat, x: nat)
    requires i.Valid() && 0 < j <= i.height
    ensures Equation(i, six, j, 0, q, x) == Equation(i, six, j - 1, i.width, q, x)
  {
    hide EffectAt, Unit;
  }

  lemma TotalOfNone(i: Input, six: bool, q: nat, x: nat)
    requires i.Valid()
    ensures Total(six, Points(i, 0, 0), q, x) == Equation(i, six, 0, 0, q, x)
  {
    hide EffectAt, Unit;
  }

  /** One more sample. */
  lemma EquationNext(i: Input, six: bool, j: nat, k: nat, q: nat, x: nat)
    requires i.Valid() && j < i.height && 0 < k <= i.width
    ensures var p := PointAt(i, j, k - 1);
            Equation(i, six, j, k, q, x) ==
            Equation(i, six, j, k - 1, q, x) + Added(Regressors(six, p.s, p.cx, p.cy), p.s.residue, q, x)
  {
    hide EffectAt, Unit, Regressors;
    var n := if six then 6 else 4;
    if 1 <= q <= n {
      PointEffect(i, six, j, k - 1, q - 1);
      if x < n {
        PointEffect(i, six, j, k - 1, x);
      }
    }
  }

  method AddPoint(m: array2<int>, six: bool, p: Point, ghost base: (nat, nat) -> int, ghost front: seq<Point>)
    requires m.Length0 == m.Length1 == 7 && Accumulated(m, base, six, front)
    modifies m
    ensures Accumulated(m, base, six, front + [p])
  {
    hide Regressors, Total, Added;
    var c := Regressors(six, p.s, p.cx, p.cy);
    ghost var before: (nat, nat) -> int := (q: nat, x: nat) => base(q, x) + Total(six, front, q, x);
    AddSample(m, c, p.s.residue, before);
    forall q: nat, x: nat | q < m.Length0 && x < m.Length1
      ensures m[q, x] == base(q, x) + Total(six, front + [p], q, x)
    {
      TotalStep(six, front, p, q, x);
      NothingElse(c, p.s.residue, q, x);
    }
  }

  lemma NothingElse(c: seq<int>, residue: int, q: nat, x: nat)
    ensures !Passed(|c|, |c|, 0, q, x) ==> Added(c, residue, q, x) == 0
  {
  }

  /** The whole computation, for six or four parameters. */
  method EqualCoeffComputer(i: Input, six: bool, m: array2<int>, ghost base: (nat, nat) -> int)
    requires i.Valid() && m.Length0 == m.Length1 == 7 && Accumulated(m, base, six, [])
    modifies m
    ensures Accumulated(m, base, six, Points(i, i.height, 0)) && HoldsEquations(m, base, i, six)
  {
    hide *;
    NoPoints(i);
    for j := 0 to i.height
      invariant Accumulated(m, base, six, Points(i, j, 0))
    {
      for k := 0 to i.width
        invariant Accumulated(m, base, six, Points(i, j, k))
      {
        PointsNext(i, j, k + 1);
        AddPoint(m, six, PointAt(i, j, k), base, Points(i, j, k));
      }
      PointsNewLine(i, j + 1);
    }
    AccumulatedEquations(m, base, i, six);
  }

  lemma NoPoints(i: Input)
    requires i.Valid()
    ensures Points(i, 0, 0) == []
  {
  }

  lemma AccumulatedEquations(m: array2<int>, base: (nat, nat) -> int, i: Input, six: bool)
    requires i.Valid() && Accumulated(m, base, six, Points(i, i.height, 0))
    ensures HoldsEquations(m, base, i, six)
  {
    hide Points, Total, Equation;
    forall q: nat, x: nat | q < m.Length0 && x < m.Length1
      ensures m[q, x] == base(q, x) + Equation(i, six, i.height, 0, q, x)
    {
      TotalIsEquation(i, six, i.height, 0, q, x);
    }
  }

  // ---- a block of at most 128x128 samples of at most 12 bits ----

  ghost predicate SmallInput(i: Input) {
    && i.Valid() && i.width <= 128 && i.height <= 128
    && forall j: nat, k: nat :: j < i.height && k < i.width ==> SmallSample(PointAt(i, j, k).s)
  }

  lemma {:induction false} PointsSmall(i: Input, j: nat, k: nat)
    requires SmallInput(i) && j <= i.height && k <= i.width && (j == i.height ==> k == 0)
    ensures AllSmall(Points(i, j, k)) && |Points(i, j, k)| == j * i.width + k
    decreases j, k
  {
    hide Small, AtMost;
    if k > 0 {
      PointsSmall(i, j, k - 1);
      PointSmall(i, j, k - 1);
    } else if j > 0 {
      PointsSmall(i, j - 1, i.width);
      assert (j - 1) * i.width + i.width == j * i.width;
    }
  }

  lemma PointSmall(i: Input, j: nat, k: nat)
    requires SmallInput(i) && j < i.height && k < i.width
    ensures Small(PointAt(i, j, k))
  {
    hide SmallSample;
  }

  /** No partial sum of the accumulation leaves the 64-bit range. */
  lemma SumsFit(i: Input, six: bool, j: nat, k: nat, a: nat, b: nat)
    requires SmallInput(i) && j <= i.height && k <= i.width && (j == i.height ==> k == 0)
    requires a < (if six then 6 else 4) && b < (if six then 6 else 4)
    ensures AtMost(Entry(six, Points(i, j, k), a, b), 0x7FFF_FFFF_FFFF_FFFF)
    ensures AtMost(TotalMoment(six, Points(i, j, k), a), 0x7FFF_FFFF_FFFF_FFFF)
  {
    hide Points, AllSmall, Entry, TotalMoment;
    PointsSmall(i, j, k);
    CountFits(i, j, k);
    EntriesFit(six, Points(i, j, k), a, b);
    MomentAtMost(six, Points(i, j, k), a);
  }

  lemma CountFits(i: Input, j: nat, k: nat)
    requires i.width <= 128 && i.height <= 128 && j <= i.height && k <= i.width && (j == i.height ==> k == 0)
    ensures j * i.width + k <= 128 * 128
  {
    MulLe(j + 1, i.height, i.width);
    MulLe(i.width, 128, i.height);
    if j < i.height {
      assert (j + 1) * i.width == j * i.width + i.width;
    }
  }

  const MOMENT_MAX: nat := 135225417600

  lemma {:induction false} MomentAtMost(six: bool, pts: seq<Point>, a: nat)
    requires AllSmall(pts) && a < (if six then 6 else 4)
    ensures AtMost(TotalMoment(six, pts, a), |pts| * MOMENT_MAX)
  {
    if pts != [] {
      var front, last := pts[..|pts| - 1], pts[|pts| - 1];
      MomentAtMost(six, front, a);
      assert Small(last);
      assert AtMost(last.s.residue, 4095);
      hide TotalMoment, Regressors, Small;
      MomentStep(six, front, last, a);
      assert front + [last] == pts;
      RegressorsSmall(six, last, a);
      var c := Regressors(six, last.s, last.cx, last.cy)[a];
      ProductAtMost(c, last.s.residue, REGRESSOR_MAX, 4095);
      MomentSum(TotalMoment(six, front, a), c * last.s.residue, |front|);
    }
  }

  lemma MomentSum(x: int, y: int, n: nat)
    requires AtMost(x, n * MOMENT_MAX) && AtMost(y, REGRESSOR_MAX * 4095)
    ensures AtMost(x + y * 8, (n + 1) * MOMENT_MAX)
  {
  }
}

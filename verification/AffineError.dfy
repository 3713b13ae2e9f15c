/** What the equations of the affine search are for: a solution makes the squared prediction error of the
    block smallest. */
module AffineError {
  import opened Affine

  // ---- rows ----

  /** What a choice of the parameters leaves of a row; derivatives count eightfold. */
  function Miss(r: Row, v: seq<int>): int
    requires |r.c| == |v|
  {
    Dot(v, r.c, |v|) - 8 * r.residue
  }

  function SquaredError(rows: seq<Row>, v: seq<int>): int
    requires Wide(rows, |v|)
  {
    if rows == [] then 0
    else
      var last := rows[|rows| - 1];
      SquaredError(rows[..|rows| - 1], v) + Miss(last, v) * Miss(last, v)
  }

  /** Sum over the rows of a change's effect times what is left. */
  function Mixed(rows: seq<Row>, v: seq<int>, u: seq<int>): int
    requires Wide(rows, |v|) && |u| == |v|
  {
    if rows == [] then 0
    else
      var last := rows[|rows| - 1];
      Mixed(rows[..|rows| - 1], v, u) + Dot(u, last.c, |u|) * Miss(last, v)
  }

  /** Sum over the rows of a change's squared effect. */
  function Energy(rows: seq<Row>, u: seq<int>): (e: int)
    requires Wide(rows, |u|)
    ensures e >= 0
  {
    if rows == [] then 0
    else
      var last := rows[|rows| - 1];
      Square(Dot(u, last.c, |u|));
      Energy(rows[..|rows| - 1], u) + Dot(u, last.c, |u|) * Dot(u, last.c, |u|)
  }

  function Sum(v: seq<int>, u: seq<int>): (w: seq<int>)
    requires |u| == |v|
    ensures |w| == |v|
  {
    seq(|v|, k requires 0 <= k < |v| => v[k] + u[k])
  }

  lemma {:induction false} DotOfSum(v: seq<int>, u: seq<int>, c: seq<int>, m: nat)
    requires |u| == |v| && m <= |v| && m <= |c|
    ensures Dot(Sum(v, u), c, m) == Dot(v, c, m) + Dot(u, c, m)
  {
    if m > 0 {
      DotOfSum(v, u, c, m - 1);
      Distribute(c[m - 1], v[m - 1], u[m - 1]);
    }
  }

  lemma SquareOfSum(x: int, y: int)
    ensures (x + y) * (x + y) == x * x + 2 * (y * x) + y * y
  {
  }

  /** The error of a changed choice. */
  lemma {:induction false} ErrorOfSum(rows: seq<Row>, v: seq<int>, u: seq<int>)
    requires Wide(rows, |v|) && |u| == |v|
    ensures SquaredError(rows, Sum(v, u)) == SquaredError(rows, v) + 2 * Mixed(rows, v, u) + Energy(rows, u)
  {
    hide Dot, Sum;
    if rows != [] {
      var front, last := rows[..|rows| - 1], rows[|rows| - 1];
      ErrorOfSum(front, v, u);
      DotOfSum(v, u, last.c, |v|);
      SquareOfSum(Miss(last, v), Dot(u, last.c, |u|));
    }
  }

  /** A row of the matrix times v, less the right-hand side. */
  function Left(rows: seq<Row>, v: seq<int>, a: nat): int
    requires Wide(rows, |v|) && a < |v|
  {
    RowTimes(rows, |v|, v, a, |v|) - Moment(rows, |v|, a)
  }

  function LeftTimes(rows: seq<Row>, v: seq<int>, u: seq<int>, m: nat): int
    requires Wide(rows, |v|) && m <= |u| == |v|
  {
    if m == 0 then 0 else LeftTimes(rows, v, u, m - 1) + u[m - 1] * Left(rows, v, m - 1)
  }

  lemma LeftGrows(rows: seq<Row>, r: Row, v: seq<int>, a: nat)
    requires Wide(rows, |v|) && |r.c| == |v| && a < |v|
    ensures Wide(rows + [r], |v|)
    ensures Left(rows + [r], v, a) == Left(rows, v, a) + r.c[a] * Miss(r, v)
  {
    RowTimesGrows(rows, r, |v|, v, a, |v|);
    assert (rows + [r])[..|rows|] == rows;
    hide RowTimes, Dot;
    Distribute(r.c[a], Dot(v, r.c, |v|), -8 * r.residue);
  }

  lemma LeftNone(v: seq<int>, a: nat)
    requires a < |v|
    ensures Left([], v, a) == 0
  {
    RowTimesNone(|v|, v, a, |v|);
  }

  lemma {:induction false} LeftTimesNone(v: seq<int>, u: seq<int>, m: nat)
    requires m <= |u| == |v|
    ensures LeftTimes([], v, u, m) == 0
  {
    hide Left;
    if m > 0 {
      LeftTimesNone(v, u, m - 1);
      LeftNone(v, m - 1);
    }
  }

  lemma {:induction false} LeftTimesGrows(rows: seq<Row>, r: Row, v: seq<int>, u: seq<int>, m: nat)
    requires Wide(rows, |v|) && |r.c| == |v| == |u| && m <= |u|
    ensures Wide(rows + [r], |v|)
    ensures LeftTimes(rows + [r], v, u, m) == LeftTimes(rows, v, u, m) + Dot(u, r.c, m) * Miss(r, v)
  {
    hide Left, Miss;
    if m > 0 {
      LeftTimesGrows(rows, r, v, u, m - 1);
      LeftGrows(rows, r, v, m - 1);
      Spread(u[m - 1], Left(rows, v, m - 1), r.c[m - 1], Miss(r, v), Dot(u, r.c, m - 1));
    }
  }

  lemma Spread(x: int, l: int, c: int, miss: int, e: int)
    ensures e * miss + x * (l + c * miss) == x * l + (e + x * c) * miss
  {
    Gather(x, l, c, miss, e);
  }

  /** The mixed sum is the change times what the equations leave. */
  lemma {:induction false} MixedIsLeft(rows: seq<Row>, v: seq<int>, u: seq<int>)
    requires Wide(rows, |v|) && |u| == |v|
    ensures Mixed(rows, v, u) == LeftTimes(rows, v, u, |u|)
  {
    hide LeftTimes, Miss, Dot;
    if rows == [] {
      LeftTimesNone(v, u, |u|);
    } else {
      var front, last := rows[..|rows| - 1], rows[|rows| - 1];
      MixedIsLeft(front, v, u);
      LeftTimesGrows(front, last, v, u, |u|);
      assert front + [last] == rows;
    }
  }

  lemma {:induction false} NothingLeft(rows: seq<Row>, v: seq<int>, u: seq<int>, m: nat)
    requires Wide(rows, |v|) && m <= |u| == |v| && forall a :: 0 <= a < |v| ==> Left(rows, v, a) == 0
    ensures LeftTimes(rows, v, u, m) == 0
  {
    hide Left;
    if m > 0 {
      NothingLeft(rows, v, u, m - 1);
    }
  }

  lemma SumOfDifference(v: seq<int>, w: seq<int>) returns (u: seq<int>)
    requires |w| == |v|
    ensures |u| == |v| && Sum(v, u) == w
  {
    u := seq(|v|, k requires 0 <= k < |v| => w[k] - v[k]);
  }

  lemma RowsAreBest(rows: seq<Row>, v: seq<int>, w: seq<int>)
    requires Wide(rows, |v|) && |w| == |v| && forall a :: 0 <= a < |v| ==> Left(rows, v, a) == 0
    ensures SquaredError(rows, v) <= SquaredError(rows, w)
  {
    hide *;
    var u := SumOfDifference(v, w);
    ErrorOfSum(rows, v, u);
    MixedIsLeft(rows, v, u);
    NothingLeft(rows, v, u, |u|);
  }

  // ---- the block ----

  /** The squared error of the block before (j, k): the effect of the parameters against eight times the residual. */
  function BlockError(i: Input, six: bool, v: seq<int>, j: nat, k: nat): int
    requires i.Valid() && j <= i.height && k <= i.width && (j == i.height ==> k == 0)
    requires |v| == if six then 6 else 4
    decreases j, k
  {
    if k > 0 then
      InBuffers(i, j, k - 1);
      var miss := EffectAt(i, six, j, k - 1, v) - 8 * i.residue[j * i.stride + k - 1];
      BlockError(i, six, v, j, k - 1) + miss * miss
    else if j > 0 then BlockError(i, six, v, j - 1, i.width)
    else 0
  }

  /** Row a of the equations of the block, times v. */
  function EquationTimes(i: Input, six: bool, a: nat, v: seq<int>, m: nat): int
    requires i.Valid() && m <= |v|
  {
    if m == 0 then 0 else EquationTimes(i, six, a, v, m - 1) + v[m - 1] * Equation(i, six, i.height, 0, a + 1, m - 1)
  }

  /** The parameters solve the equations. */
  ghost predicate Solves(i: Input, six: bool, v: seq<int>)
    requires i.Valid() && |v| == if six then 6 else 4
  {
    forall a: nat :: a < |v| ==>
      EquationTimes(i, six, a, v, |v|) == Equation(i, six, i.height, 0, a + 1, |v|)
  }

  lemma RowMiss(i: Input, six: bool, v: seq<int>, j: nat, k: nat)
    requires i.Valid() && j < i.height && k < i.width && |v| == if six then 6 else 4
    ensures 0 <= j * i.stride + k < |i.residue|
    ensures var p := PointAt(i, j, k);
            Miss(Row(Regressors(six, p.s, p.cx, p.cy), p.s.residue), v)
            == EffectAt(i, six, j, k, v) - 8 * i.residue[j * i.stride + k]
  {
    InBuffers(i, j, k);
    var p := PointAt(i, j, k);
    CentreMeans(k);
    CentreMeans(j);
    hide Regressors, Effect, Centre, Dot;
    RegressorsAreEffects(six, p.s, p.cx, p.cy, v);
  }

  lemma ErrorOfMore(rows: seq<Row>, r: Row, v: seq<int>)
    requires Wide(rows, |v|) && |r.c| == |v|
    ensures Wide(rows + [r], |v|)
    ensures SquaredError(rows + [r], v) == SquaredError(rows, v) + Miss(r, v) * Miss(r, v)
  {
    assert (rows + [r])[..|rows|] == rows;
    hide Miss;
  }

  lemma BlockErrorNext(i: Input, six: bool, v: seq<int>, j: nat, k: nat)
    requires i.Valid() && j < i.height && k < i.width && |v| == if six then 6 else 4
    ensures var p := PointAt(i, j, k);
            var miss := Miss(Row(Regressors(six, p.s, p.cx, p.cy), p.s.residue), v);
            BlockError(i, six, v, j, k + 1) == BlockError(i, six, v, j, k) + miss * miss
  {
    hide Miss, EffectAt, Regressors, PointAt;
    RowMiss(i, six, v, j, k);
  }

  lemma BlockErrorNewLine(i: Input, six: bool, v: seq<int>, j: nat)
    requires i.Valid() && 0 < j <= i.height && |v| == if six then 6 else 4
    ensures BlockError(i, six, v, j, 0) == BlockError(i, six, v, j - 1, i.width) && BlockError(i, six, v, 0, 0) == 0
  {
    hide EffectAt;
  }

  lemma {:induction false} ErrorOfRows(i: Input, six: bool, v: seq<int>, j: nat, k: nat)
    requires i.Valid() && j <= i.height && k <= i.width && (j == i.height ==> k == 0)
    requires |v| == if six then 6 else 4
    ensures SquaredError(Rows(six, Points(i, j, k)), v) == BlockError(i, six, v, j, k)
    decreases j, k
  {
    hide *;
    if k > 0 {
      var p := PointAt(i, j, k - 1);
      ErrorOfRows(i, six, v, j, k - 1);
      PointsNext(i, j, k);
      RowsGrow(six, Points(i, j, k - 1), p);
      ErrorOfMore(Rows(six, Points(i, j, k - 1)), Row(Regressors(six, p.s, p.cx, p.cy), p.s.residue), v);
      BlockErrorNext(i, six, v, j, k - 1);
    } else if j > 0 {
      ErrorOfRows(i, six, v, j - 1, i.width);
      PointsNewLine(i, j);
      BlockErrorNewLine(i, six, v, j);
    } else {
      ErrorOfNone(i, six, v);
    }
  }

  lemma ErrorOfNone(i: Input, six: bool, v: seq<int>)
    requires i.Valid() && |v| == if six then 6 else 4
    ensures SquaredError(Rows(six, Points(i, 0, 0)), v) == BlockError(i, six, v, 0, 0)
  {
  }

  lemma EquationIsGram(i: Input, six: bool, a: nat, b: nat)
    requires i.Valid() && a < (if six then 6 else 4) && b < (if six then 6 else 4)
    ensures var rows, n := Rows(six, Points(i, i.height, 0)), if six then 6 else 4;
            && Equation(i, six, i.height, 0, a + 1, b) == Gram(rows, n, a, b)
            && Equation(i, six, i.height, 0, a + 1, n) == Moment(rows, n, a)
  {
    hide Equation, Points, Rows, Gram, Moment;
    TotalIsEquation(i, six, i.height, 0, a + 1, b);
    TotalIsEquation(i, six, i.height, 0, a + 1, if six then 6 else 4);
  }

  lemma {:induction false} EquationTimesIsRowTimes(i: Input, six: bool, a: nat, v: seq<int>, m: nat)
    requires i.Valid() && m <= |v| == (if six then 6 else 4) && a < |v|
    ensures EquationTimes(i, six, a, v, m) == RowTimes(Rows(six, Points(i, i.height, 0)), |v|, v, a, m)
  {
    hide Equation, Points, Rows, Gram, Moment;
    if m > 0 {
      EquationTimesIsRowTimes(i, six, a, v, m - 1);
      EquationIsGram(i, six, a, m - 1);
    }
  }

  /** Parameters that solve the equations the array holds have the smallest squared error over the block. */
  lemma SolutionIsBest(i: Input, six: bool, v: seq<int>, w: seq<int>)
    requires i.Valid() && |w| == |v| == (if six then 6 else 4) && Solves(i, six, v)
    ensures BlockError(i, six, v, i.height, 0) <= BlockError(i, six, w, i.height, 0)
  {
    hide Equation, EquationTimes, Points, Rows, RowTimes, Moment, SquaredError, BlockError;
    var rows := Rows(six, Points(i, i.height, 0));
    forall a: nat | a < |v|
      ensures Left(rows, v, a) == 0
    {
      EquationTimesIsRowTimes(i, six, a, v, |v|);
      EquationIsGram(i, six, a, 0);
    }
    RowsAreBest(rows, v, w);
    ErrorOfRows(i, six, v, i.height, 0);
    ErrorOfRows(i, six, w, i.height, 0);
  }
}

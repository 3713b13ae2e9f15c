/** Block classification of the adaptive loop filter (section 8.8.5 of Rec. ITU-T H.266): gradient
    sums accumulated in place, and the class and orientation derived from them. */
module AlfClassify {
  import opened Arith
  import opened Bits

  /** A source plane, sample by column and row; it is padded wherever it is read. */
  type Image = (int, int) -> int

  /** One value for each of the four directions. */
  datatype Quad = Quad(ver: int, hor: int, dig0: int, dig1: int)

  predicate NonNegative(s: Quad) {
    s.ver >= 0 && s.hor >= 0 && s.dig0 >= 0 && s.dig1 >= 0
  }

  function Plus(a: Quad, b: Quad): (r: Quad)
    ensures NonNegative(a) && NonNegative(b) ==> NonNegative(r)
  {
    Quad(a.ver + b.ver, a.hor + b.hor, a.dig0 + b.dig0, a.dig1 + b.dig1)
  }

  function Abs(x: int): nat {
    if x < 0 then -x else x
  }

  /** Twice a sample, in the 16-bit sample type. */
  function Twice(p: int): int {
    Pel(2 * p)
  }

  lemma TwiceIsExact(p: int)
    requires p >= 0
    ensures Twice(p) == 2 * p ==> p < 0x4000
    ensures p < 0x4000 ==> Twice(p) == 2 * p
  {
  }

  // ---- the program's accumulation ----

  /** A block to classify: where it is read, where its classes go, and the virtual boundary. */
  datatype Block = Block(posX: int, posY: int, dstX: nat, dstY: nat, width: nat, height: nat, ctuHeight: nat,
                         vbPos: int) {
    /** A whole number of 4x4 blocks. */
    ghost predicate Valid() {
      width == 4 * (width / 4) && height == 4 * (height / 4) && ctuHeight > 0
    }
  }

  predicate IsEven(i: nat) {
    i % 2 == 0
  }

  lemma Even(n: nat)
    ensures (2 * n) % 2 == 0 && IsEven(2 * n) && !IsEven(2 * n + 1)
  {
  }

  /** Two diagonal neighbours' gradients; r0 is the row above the first, r3 the row below the second. */
  function CellAt(img: Image, x: int, y: int, r0: int, r3: int): (r: Quad)
    ensures NonNegative(r)
  {
    var a, b := Twice(img(x, y)), Twice(img(x + 1, y + 1));
    Quad(Abs(a - img(x, r0) - img(x, y + 1)) + Abs(b - img(x + 1, y) - img(x + 1, r3)),
         Abs(a - img(x + 1, y) - img(x - 1, y)) + Abs(b - img(x + 2, y + 1) - img(x, y + 1)),
         Abs(a - img(x - 1, r0) - img(x + 1, y + 1)) + Abs(b - img(x, y) - img(x + 2, r3)),
         Abs(a - img(x - 1, y + 1) - img(x + 1, r0)) + Abs(b - img(x, r3) - img(x + 2, y)))
  }

  /** The rows above and below a pair of rows; next to the virtual boundary they stay on their side. */
  function RowAbove(b: Block, i: nat): int
    requires b.Valid()
  {
    var y, row := b.dstY - 2 + i, b.posY - 2 + i;
    if y > 0 && y % b.ctuHeight == b.vbPos - 2 then row - 1
    else if y > 0 && y % b.ctuHeight == b.vbPos then row
    else row - 1
  }

  function RowBelow(b: Block, i: nat): int
    requires b.Valid()
  {
    var y, row := b.dstY - 2 + i, b.posY - 2 + i;
    if y > 0 && y % b.ctuHeight == b.vbPos - 2 then row + 1 else row + 2
  }

  function Cell(b: Block, img: Image, i: nat, j: nat): (r: Quad)
    requires b.Valid()
    ensures NonNegative(r)
  {
    CellAt(img, b.posX + j - 2, b.posY + i - 2, RowAbove(b, i), RowBelow(b, i))
  }

  function FourCells(b: Block, img: Image, i: nat, j: nat): (r: Quad)
    requires b.Valid()
    ensures NonNegative(r)
  {
    Plus(Cell(b, img, i, j), Plus(Plus(Cell(b, img, i, j + 2), Cell(b, img, i, j + 4)), Cell(b, img, i, j + 6)))
  }

  /** What column k holds once the columns before j are done. */
  function Partial(b: Block, img: Image, i: nat, k: nat, j: nat): Quad
    requires b.Valid()
  {
    if k % 4 == 0 && k + 6 < j then FourCells(b, img, i, k) else Cell(b, img, i, k)
  }

  ghost predicate RowDone(b: Block, img: Image, row: seq<Quad>, i: nat, j: nat)
    requires b.Valid() && j <= |row|
  {
    forall k: nat :: k < j && k % 2 == 0 ==> row[k] == Partial(b, img, i, k, j)
  }

  lemma ColumnDone(b: Block, img: Image, row: seq<Quad>, i: nat, j: nat, k: nat)
    requires b.Valid() && j <= |row| && RowDone(b, img, row, i, j) && k < j && k % 2 == 0
    ensures row[k] == Partial(b, img, i, k, j)
  {
    hide Partial;
  }

  lemma ColumnsDone(b: Block, img: Image, row: seq<Quad>, i: nat, j: nat)
    requires b.Valid() && j <= |row| && forall k: nat :: k < j && k % 2 == 0 ==> row[k] == Partial(b, img, i, k, j)
    ensures RowDone(b, img, row, i, j)
  {
    hide Partial;
  }

  /** Two columns on, what a column holds changes only where the fourth cell is new. */
  lemma PartialNext(b: Block, img: Image, i: nat, k: nat, j: nat)
    requires b.Valid() && k % 2 == 0 && j % 2 == 0 && k <= j
    ensures k < j && (k + 6 != j || k % 4 != 0) ==> Partial(b, img, i, k, j + 2) == Partial(b, img, i, k, j)
    ensures k + 6 == j && k % 4 == 0 ==> Partial(b, img, i, k, j + 2) == FourCells(b, img, i, k)
    ensures k + 6 >= j ==> Partial(b, img, i, k, j) == Cell(b, img, i, k)
    ensures k == j ==> Partial(b, img, i, k, j + 2) == Cell(b, img, i, k)
  {
    hide FourCells, Cell;
  }

  lemma EvenColumns(k: nat, j: nat)
    requires k % 2 == 0 && j % 2 == 0 && k < j + 2
    ensures k <= j
  {
  }

  /** A column that is not yet followed by three more cells stays a cell. */
  lemma CellKept(b: Block, img: Image, row: seq<Quad>, i: nat, j: nat)
    requires b.Valid() && j % 2 == 0 && j + 2 <= |row| && RowDone(b, img, row, i, j) && !(j > 4 && (j - 6) % 4 == 0)
    ensures RowDone(b, img, row[j := Cell(b, img, i, j)], i, j + 2)
  {
    hide *;
    var next := row[j := Cell(b, img, i, j)];
    forall k: nat | k < j + 2 && k % 2 == 0
      ensures next[k] == Partial(b, img, i, k, j + 2)
    {
      EvenColumns(k, j);
      PartialNext(b, img, i, k, j);
      if k < j {
        ColumnDone(b, img, row, i, j, k);
        assert k + 6 == j ==> k == j - 6;
      }
    }
    ColumnsDone(b, img, next, i, j + 2);
  }

  lemma FourCellsOf(b: Block, img: Image, i: nat, k: nat)
    requires b.Valid()
    ensures FourCells(b, img, i, k)
         == Plus(Cell(b, img, i, k), Plus(Plus(Cell(b, img, i, k + 2), Cell(b, img, i, k + 4)), Cell(b, img, i, k + 6)))
  {
    hide Cell, Plus;
  }

  lemma EarlierColumn(b: Block, img: Image, row: seq<Quad>, i: nat, j: nat, k: nat)
    requires b.Valid() && j % 2 == 0 && j <= |row| && RowDone(b, img, row, i, j)
    requires k < j <= k + 6 && k % 2 == 0
    ensures row[k] == Cell(b, img, i, k)
  {
    hide *;
    ColumnDone(b, img, row, i, j, k);
    PartialNext(b, img, i, k, j);
  }

  lemma CellsBefore(b: Block, img: Image, row: seq<Quad>, i: nat, j: nat)
    requires b.Valid() && j % 2 == 0 && 6 <= j <= |row| && RowDone(b, img, row, i, j)
    ensures row[j - 6] == Cell(b, img, i, j - 6) && row[j - 4] == Cell(b, img, i, j - 4)
    ensures row[j - 2] == Cell(b, img, i, j - 2)
  {
    hide *;
    EarlierColumn(b, img, row, i, j, j - 6);
    EarlierColumn(b, img, row, i, j, j - 4);
    EarlierColumn(b, img, row, i, j, j - 2);
  }

  /** The column three cells back becomes the sum of four. */
  lemma CellsSummed(b: Block, img: Image, row: seq<Quad>, i: nat, j: nat)
    requires b.Valid() && j % 2 == 0 && 6 <= j && j + 2 <= |row| && RowDone(b, img, row, i, j) && (j - 6) % 4 == 0
    ensures RowDone(b, img, row[j := Cell(b, img, i, j)][j - 6 := FourCells(b, img, i, j - 6)], i, j + 2)
  {
    hide *;
    var next := row[j := Cell(b, img, i, j)][j - 6 := FourCells(b, img, i, j - 6)];
    forall k: nat | k < j + 2 && k % 2 == 0
      ensures next[k] == Partial(b, img, i, k, j + 2)
    {
      EvenColumns(k, j);
      PartialNext(b, img, i, k, j);
      if k < j {
        ColumnDone(b, img, row, i, j, k);
      }
    }
    ColumnsDone(b, img, next, i, j + 2);
  }

  lemma RowStep(b: Block, img: Image, row: seq<Quad>, i: nat, j: nat)
    requires b.Valid() && j % 2 == 0 && j + 2 <= |row| && RowDone(b, img, row, i, j)
    ensures var next := row[j := Cell(b, img, i, j)];
            if j > 4 && (j - 6) % 4 == 0
            then RowDone(b, img, next[j - 6 := Plus(next[j - 6], Plus(Plus(next[j - 4], next[j - 2]), next[j]))], i,
                         j + 2)
            else RowDone(b, img, next, i, j + 2)
  {
    hide *;
    if j > 4 && (j - 6) % 4 == 0 {
      CellsBefore(b, img, row, i, j);
      FourCellsOf(b, img, i, j - 6);
      CellsSummed(b, img, row, i, j);
    } else {
      CellKept(b, img, row, i, j);
    }
  }

  lemma RowStart(b: Block, img: Image, row: seq<Quad>, i: nat)
    requires b.Valid()
    ensures RowDone(b, img, row, i, 0)
  {
  }

  lemma RowFinished(b: Block, img: Image, row: array<Quad>, i: nat)
    requires b.Valid() && b.width + 4 <= row.Length && RowDone(b, img, row[..], i, b.width + 4)
    ensures RowOk(b, img, row, i)
  {
  }

  lemma NoRows(b: Block, img: Image, rows: seq<array<Quad>>)
    requires b.Valid()
    ensures RowsDone(b, img, rows, 0)
  {
  }

  /** A row of cells, each fourth one turned into the sum of four. */
  method AccumulateRow(b: Block, img: Image, row: array<Quad>, i: nat)
    requires b.Valid() && b.width + 4 <= row.Length
    modifies row
    ensures RowOk(b, img, row, i)
  {
    assert b.width == 4 * (b.width / 4);
    ghost var blocks: nat := b.width / 4;
    hide *;
    RowStart(b, img, row[..], i);
    var j: nat := 0;
    ghost var n: nat := 0;
    while j < b.width + 4
      invariant j == 2 * n && n <= 2 * blocks + 2
      invariant RowDone(b, img, row[..], i, j)
    {
      ghost var before := row[..];
      Even(n);
      RowStep(b, img, before, i, j);
      row[j] := Cell(b, img, i, j);
      assert row[..] == before[j := Cell(b, img, i, j)];
      if j > 4 && (j - 6) % 4 == 0 {
        ghost var next := row[..];
        row[j - 6] := Plus(row[j - 6], Plus(Plus(row[j - 4], row[j - 2]), row[j]));
        assert row[..] == next[j - 6 := Plus(next[j - 6], Plus(Plus(next[j - 4], next[j - 2]), next[j]))];
      }
      j := j + 2;
      n := n + 1;
    }
    RowFinished(b, img, row, i);
  }

  /** The rows are separate arrays. */
  ghost predicate Separate(rows: seq<array<Quad>>) {
    forall r, q :: 0 <= r < q < |rows| ==> rows[r] != rows[q]
  }

  ghost predicate RowOk(b: Block, img: Image, row: array<Quad>, i: nat)
    requires b.Valid()
    reads row
  {
    b.width + 4 <= row.Length && RowDone(b, img, row[..], i, b.width + 4)
  }

  ghost predicate RowsDone(b: Block, img: Image, rows: seq<array<Quad>>, n: nat)
    requires b.Valid() && n <= |rows|
    reads rows
  {
    forall i: nat :: i < n && IsEven(i) ==> RowOk(b, img, rows[i], i)
  }

  /** The rows other than row i, up to it, are done. */
  ghost predicate OthersDone(b: Block, img: Image, rows: seq<array<Quad>>, i: nat)
    requires b.Valid() && i < |rows|
    reads set k | 0 <= k < i :: rows[k]
  {
    forall k: nat :: k < i && IsEven(k) ==> RowOk(b, img, rows[k], k)
  }

  lemma OtherRows(b: Block, img: Image, rows: seq<array<Quad>>, i: nat)
    requires b.Valid() && i < |rows| && Separate(rows) && RowsDone(b, img, rows, i)
    ensures OthersDone(b, img, rows, i) && forall k :: 0 <= k < i ==> rows[k] != rows[i]
  {
    hide RowOk;
  }

  lemma RowAdded(b: Block, img: Image, rows: seq<array<Quad>>, i: nat)
    requires b.Valid() && i + 2 <= |rows| && OthersDone(b, img, rows, i) && RowOk(b, img, rows[i], i) && !IsEven(i + 1)
    ensures RowsDone(b, img, rows, i + 2)
  {
    hide RowOk, IsEven;
  }

  /** The first loop nest. */
  method AccumulateRows(b: Block, img: Image, rows: seq<array<Quad>>)
    requires b.Valid() && b.height + 4 <= |rows| && Separate(rows)
    requires forall i :: 0 <= i < |rows| ==> b.width + 4 <= rows[i].Length
    modifies rows
    ensures RowsDone(b, img, rows, b.height + 4)
  {
    assert b.height == 4 * (b.height / 4);
    ghost var blocks: nat := b.height / 4;
    hide *;
    var i: nat := 0;
    ghost var n: nat := 0;
    NoRows(b, img, rows);
    while i < b.height + 4
      invariant i == 2 * n && n <= 2 * blocks + 2
      invariant RowsDone(b, img, rows, i)
    {
      OtherRows(b, img, rows, i);
      AccumulateRow(b, img, rows[i], i);
      Even(n);
      RowAdded(b, img, rows, i);
      i := i + 2;
      n := n + 1;
    }
  }

  // ---- classes ----

  /** A block's class and the orientation its filter is used in. */
  datatype Class = Class(classIdx: nat, transposeIdx: nat)

  const MAX_ACTIVITY := 15
  const THRESHOLDS: seq<nat> := [0, 1, 2, 2, 2, 2, 2, 3, 3, 3, 3, 3, 3, 3, 3, 4]
  const TRANSPOSE_TABLE: seq<nat> := [0, 1, 0, 2, 2, 3, 1, 3]
  const WORD_VALUES := 0x1_0000_0000

  /** A product of 32-bit unsigned words. */
  function Product(a: nat, b: nat): nat {
    (a * b) % WORD_VALUES
  }

  function Clip3(low: int, high: int, x: int): (r: int)
    requires low <= high
    ensures low <= r <= high
  {
    if x < low then low else if x > high then high else x
  }

  /** 1 if the stronger direction is the diagonal one, judged by the products of the sums. */
  predicate DiagonalWins(d1: nat, hv0: nat, hv1: nat, d0: nat) {
    Product(d1, hv0) > Product(hv1, d0)
  }

  function Strength(hvd1: nat, hvd0: nat): (r: nat)
    ensures r <= 2
  {
    if hvd1 * 2 > 9 * hvd0 then 2 else if hvd1 > 2 * hvd0 then 1 else 0
  }

  /** The decision over the four sums; `factor` is 64, or 96 for a window of three quarters. */
  function Classify(s: Quad, factor: nat, shift: nat): (c: Class)
    requires NonNegative(s)
    ensures c.classIdx < 25 && c.transposeIdx < 4
  {
    var activity := Clip3(0, MAX_ACTIVITY, ((s.ver + s.hor) * factor) / Pow2(shift));
    Decide(s, THRESHOLDS[activity])
  }

  function Decide(s: Quad, level: nat): (c: Class)
    requires NonNegative(s) && level < 5
    ensures c.classIdx < 25 && c.transposeIdx < 4
  {
    var hv1, hv0, dirHV := if s.ver > s.hor then s.ver else s.hor, if s.ver > s.hor then s.hor else s.ver,
                           if s.ver > s.hor then 1 else 3;
    var d1, d0, dirD := if s.dig0 > s.dig1 then s.dig0 else s.dig1, if s.dig0 > s.dig1 then s.dig1 else s.dig0,
                        if s.dig0 > s.dig1 then 0 else 2;
    var diagonal := DiagonalWins(d1, hv0, hv1, d0);
    var main, second := if diagonal then dirD else dirHV, if diagonal then dirHV else dirD;
    var strength := if diagonal then Strength(d1, d0) else Strength(hv1, hv0);
    Class(if strength != 0 then level + ((main % 2) * 2 + strength) * 5 else level,
          TRANSPOSE_TABLE[main * 2 + second / 2])
  }

  /** The orientation only says which of each pair of directions is stronger, whichever pair wins. */
  lemma OrientationMeaning(s: Quad, factor: nat, shift: nat)
    requires NonNegative(s)
    ensures Classify(s, factor, shift).transposeIdx
         == (if s.ver > s.hor then 0 else 1) + (if s.dig0 > s.dig1 then 0 else 2)
  {
    hide DiagonalWins, Strength, Clip3;
  }

  /** Exchanging the two sums of a pair of directions keeps the class. */
  lemma PairsAreUnordered(s: Quad, factor: nat, shift: nat)
    requires NonNegative(s)
    ensures Classify(Quad(s.hor, s.ver, s.dig0, s.dig1), factor, shift).classIdx == Classify(s, factor, shift).classIdx
    ensures Classify(Quad(s.ver, s.hor, s.dig1, s.dig0), factor, shift).classIdx == Classify(s, factor, shift).classIdx
  {
    hide Decide, Clip3, Pow2;
    var level := THRESHOLDS[Clip3(0, MAX_ACTIVITY, ((s.ver + s.hor) * factor) / Pow2(shift))];
    SwappedPlain(s, level);
    SwappedDiagonals(s, level);
  }

  lemma SwappedPlain(s: Quad, level: nat)
    requires NonNegative(s) && level < 5
    ensures Decide(Quad(s.hor, s.ver, s.dig0, s.dig1), level).classIdx == Decide(s, level).classIdx
  {
    hide DiagonalWins, Strength;
  }

  lemma SwappedDiagonals(s: Quad, level: nat)
    requires NonNegative(s) && level < 5
    ensures Decide(Quad(s.ver, s.hor, s.dig1, s.dig0), level).classIdx == Decide(s, level).classIdx
  {
    hide DiagonalWins, Strength;
  }

  /** Products of sums below 2^16 do not wrap: the comparison is that of the ratios. */
  lemma ComparisonIsExact(d1: nat, hv0: nat, hv1: nat, d0: nat)
    requires d1 < 0x1_0000 && hv0 < 0x1_0000 && hv1 < 0x1_0000 && d0 < 0x1_0000
    ensures DiagonalWins(d1, hv0, hv1, d0) <==> d1 * hv0 > hv1 * d0
  {
    ProductFits(d1, hv0);
    ProductFits(hv1, d0);
  }

  lemma ProductFits(a: nat, b: nat)
    requires a < 0x1_0000 && b < 0x1_0000
    ensures Product(a, b) == a * b
  {
    MulLe(0, a, b);
    MulLe(a, 0xFFFF, b);
    SmallWord(a * b);
  }

  lemma SmallWord(p: nat)
    requires p <= 0xFFFF * 0xFFFF
    ensures p % WORD_VALUES == p
  {
  }

  /** One more and it wraps: a clear diagonal is then taken for no direction at all. */
  lemma ComparisonWraps()
    ensures var s := Quad(0x1_0000, 0x1_0000, 0x1_0000, 0);
            0x1_0000 * 0x1_0000 > 0x1_0000 * 0 && !DiagonalWins(0x1_0000, 0x1_0000, 0x1_0000, 0) &&
            forall level: nat :: level < 5 ==> Decide(s, level).classIdx == level
  {
  }

  // ---- what a class means ----

  function Greater(a: int, b: int): int {
    if a > b then a else b
  }

  function Lesser(a: int, b: int): int {
    if a > b then b else a
  }

  /** The level of activity a in units of p: below 1, 2, 7 and 15. */
  ghost predicate LevelMeans(level: nat, a: int, p: int) {
    && (level == 0 <==> a < p)
    && (level == 1 <==> p <= a < 2 * p)
    && (level == 2 <==> 2 * p <= a < 7 * p)
    && (level == 3 <==> 7 * p <= a < 15 * p)
    && (level == 4 <==> 15 * p <= a)
  }

  /** The diagonal pair has the larger ratio, by 32-bit products. */
  ghost predicate DiagonalLeads(s: Quad) {
    (Greater(s.dig0, s.dig1) * Lesser(s.ver, s.hor)) % 0x1_0000_0000 >
    (Greater(s.ver, s.hor) * Lesser(s.dig0, s.dig1)) % 0x1_0000_0000
  }

  /** The direction: which pair leads, and whether its ratio is above 2 : 1 or above 9 : 2. */
  ghost predicate DirectionMeans(direction: nat, s: Quad) {
    var d1, d0 := Greater(s.dig0, s.dig1), Lesser(s.dig0, s.dig1);
    var hv1, hv0 := Greater(s.ver, s.hor), Lesser(s.ver, s.hor);
    if DiagonalLeads(s) then
      direction <= 2 && (direction >= 1 <==> d1 > 2 * d0) && (direction == 2 <==> 2 * d1 > 9 * d0)
    else
      direction in {0, 3, 4} && (direction >= 3 <==> hv1 > 2 * hv0) && (direction == 4 <==> 2 * hv1 > 9 * hv0)
  }

  /** What the sums of a block say about its class and orientation. */
  ghost predicate ClassMeans(c: Class, s: Quad, factor: nat, shift: nat) {
    && LevelMeans(c.classIdx % 5, (s.ver + s.hor) * factor, Pow2(shift))
    && DirectionMeans(c.classIdx / 5, s)
    && (c.transposeIdx == (if s.ver > s.hor then 0 else 1) + (if s.dig0 > s.dig1 then 0 else 2))
  }

  lemma QuotientAtLeast(a: int, p: nat, n: int)
    requires p > 0
    ensures a / p >= n <==> n * p <= a
  {
    var q := a / p;
    assert a == q * p + a % p && (q + 1) * p == q * p + p;
    MulLe(n, q, p);
    MulLe(q + 1, n, p);
  }

  lemma ThresholdMeans(a: int, p: nat)
    requires p > 0
    ensures LevelMeans(THRESHOLDS[Clip3(0, MAX_ACTIVITY, a / p)], a, p)
  {
    QuotientAtLeast(a, p, 1);
    QuotientAtLeast(a, p, 2);
    QuotientAtLeast(a, p, 7);
    QuotientAtLeast(a, p, 15);
    LevelOfQuotient(a / p, a, p);
  }

  lemma LevelOfQuotient(q: int, a: int, p: nat)
    requires p > 0 && (q >= 1 <==> p <= a) && (q >= 2 <==> 2 * p <= a)
    requires (q >= 7 <==> 7 * p <= a) && (q >= 15 <==> 15 * p <= a)
    ensures LevelMeans(THRESHOLDS[Clip3(0, MAX_ACTIVITY, q)], a, p)
  {
  }

  lemma LeaderMeans(s: Quad)
    requires NonNegative(s)
    ensures DiagonalWins(Greater(s.dig0, s.dig1), Lesser(s.ver, s.hor), Greater(s.ver, s.hor), Lesser(s.dig0, s.dig1))
       <==> DiagonalLeads(s)
  {
  }

  lemma DecisionMeans(s: Quad, level: nat)
    requires NonNegative(s) && level < 5
    ensures Decide(s, level).classIdx % 5 == level && DirectionMeans(Decide(s, level).classIdx / 5, s)
  {
    LeaderMeans(s);
    hide DiagonalWins, DiagonalLeads;
  }

  /** The program's decision is the one described. */
  lemma ClassifyMeans(s: Quad, factor: nat, shift: nat)
    requires NonNegative(s)
    ensures ClassMeans(Classify(s, factor, shift), s, factor, shift)
  {
    hide Decide, DirectionMeans, Clip3, LevelMeans, Pow2;
    var a := (s.ver + s.hor) * factor;
    ThresholdMeans(a, Pow2(shift));
    DecisionMeans(s, THRESHOLDS[Clip3(0, MAX_ACTIVITY, a / Pow2(shift))]);
    OrientationMeaning(s, factor, shift);
  }

  // ---- the second loop nest ----

  /** The gradient sums of a 4x4 block: four rows of four cells, or three next to the virtual boundary. */
  function SumOf(b: Block, img: Image, i: nat, j: nat): (r: Quad)
    requires b.Valid()
    ensures NonNegative(r)
  {
    var y := (i + b.dstY) % b.ctuHeight;
    var s0, s2, s4, s6 := FourCells(b, img, i, j), FourCells(b, img, i + 2, j), FourCells(b, img, i + 4, j),
                          FourCells(b, img, i + 6, j);
    if y == b.vbPos - 4 then Plus(Plus(s0, s2), s4)
    else if y == b.vbPos then Plus(Plus(s2, s4), s6)
    else Plus(Plus(Plus(s0, s2), s4), s6)
  }

  function ClassOf(b: Block, img: Image, i: nat, j: nat, shift: nat): Class
    requires b.Valid()
  {
    var y := (i + b.dstY) % b.ctuHeight;
    Classify(SumOf(b, img, i, j), if y == b.vbPos - 4 || y == b.vbPos then 96 else 64, shift)
  }

  ghost predicate Reads(b: Block, img: Image, rows: seq<array<Quad>>, i: nat, j: nat)
    requires b.Valid()
    reads rows
  {
    i < |rows| && j < rows[i].Length && rows[i][j] == FourCells(b, img, i, j)
  }

  lemma RowRead(b: Block, img: Image, rows: seq<array<Quad>>, i: nat, j: nat)
    requires b.Valid() && b.height + 4 <= |rows| && RowsDone(b, img, rows, b.height + 4)
    requires IsEven(i) && i < b.height + 4 && j % 4 == 0 && j + 4 <= b.width
    ensures Reads(b, img, rows, i, j)
  {
    hide FourCells, Cell;
    assert RowOk(b, img, rows[i], i);
  }

  lemma BlockReads(b: Block, img: Image, rows: seq<array<Quad>>, bi: nat, bj: nat)
    requires b.Valid() && b.height + 4 <= |rows| && RowsDone(b, img, rows, b.height + 4)
    requires 4 * bi + 4 <= b.height && 4 * bj + 4 <= b.width
    ensures Reads(b, img, rows, 4 * bi, 4 * bj) && Reads(b, img, rows, 4 * bi + 2, 4 * bj)
    ensures Reads(b, img, rows, 4 * bi + 4, 4 * bj) && Reads(b, img, rows, 4 * bi + 6, 4 * bj)
  {
    hide *;
    MultipleOfFour(bj);
    Even(2 * bi);
    Even(2 * bi + 1);
    Even(2 * bi + 2);
    Even(2 * bi + 3);
    RowRead(b, img, rows, 4 * bi, 4 * bj);
    RowRead(b, img, rows, 4 * bi + 2, 4 * bj);
    RowRead(b, img, rows, 4 * bi + 4, 4 * bj);
    RowRead(b, img, rows, 4 * bi + 6, 4 * bj);
  }

  lemma MultipleOfFour(n: nat)
    ensures (4 * n) % 4 == 0
  {
  }

  method ClassifyBlock(b: Block, img: Image, rows: seq<array<Quad>>, bi: nat, bj: nat, shift: nat) returns (c: Class)
    requires b.Valid() && b.height + 4 <= |rows| && RowsDone(b, img, rows, b.height + 4)
    requires 4 * bi + 4 <= b.height && 4 * bj + 4 <= b.width
    ensures c == ClassOf(b, img, 4 * bi, 4 * bj, shift)
  {
    var i, j := 4 * bi, 4 * bj;
    hide RowsDone, FourCells, Classify, RowOk, IsEven, Plus;
    BlockReads(b, img, rows, bi, bj);
    var y := (i + b.dstY) % b.ctuHeight;
    var sums;
    if y == b.vbPos - 4 {
      sums := Plus(Plus(rows[i][j], rows[i + 2][j]), rows[i + 4][j]);
    } else if y == b.vbPos {
      sums := Plus(Plus(rows[i + 2][j], rows[i + 4][j]), rows[i + 6][j]);
    } else {
      sums := Plus(Plus(Plus(rows[i][j], rows[i + 2][j]), rows[i + 4][j]), rows[i + 6][j]);
    }
    assert sums == SumOf(b, img, i, j);
    c := Classify(sums, if y == b.vbPos - 4 || y == b.vbPos then 96 else 64, shift);
  }

  predicate InBlock(b: Block, bi: nat, bj: nat, y: nat, x: nat) {
    b.dstY + 4 * bi <= y < b.dstY + 4 * bi + 4 && b.dstX + 4 * bj <= x < b.dstX + 4 * bj + 4
  }

  ghost predicate BlockIs(b: Block, classifier: array2<Class>, bi: nat, bj: nat, c: Class)
    reads classifier
  {
    forall y: nat, x: nat :: y < classifier.Length0 && x < classifier.Length1 && InBlock(b, bi, bj, y, x) ==>
      classifier[y, x] == c
  }

  method FillBlock(b: Block, classifier: array2<Class>, bi: nat, bj: nat, c: Class)
    requires b.dstY + 4 * bi + 4 <= classifier.Length0 && b.dstX + 4 * bj + 4 <= classifier.Length1
    modifies classifier
    ensures BlockIs(b, classifier, bi, bj, c)
    ensures forall y: nat, x: nat :: y < classifier.Length0 && x < classifier.Length1 && !InBlock(b, bi, bj, y, x) ==>
      classifier[y, x] == old(classifier[y, x])
  {
    var y0, x0 := b.dstY + 4 * bi, b.dstX + 4 * bj;
    forall y, x | y0 <= y < y0 + 4 && x0 <= x < x0 + 4 {
      classifier[y, x] := c;
    }
  }

  function ClassAt(b: Block, img: Image, bi: nat, bj: nat, shift: nat): Class
    requires b.Valid()
  {
    ClassOf(b, img, 4 * bi, 4 * bj, shift)
  }

  /** The blocks before (n, m), row by row, are classified. */
  ghost predicate Classified(b: Block, img: Image, shift: nat, classifier: array2<Class>, n: nat, m: nat)
    requires b.Valid()
    reads classifier
  {
    forall bi: nat, bj: nat :: 4 * bi + 4 <= b.height && 4 * bj + 4 <= b.width && (bi < n || (bi == n && bj < m)) ==>
      BlockIs(b, classifier, bi, bj, ClassAt(b, img, bi, bj, shift))
  }

  predicate InArea(b: Block, y: nat, x: nat) {
    b.dstY <= y < b.dstY + b.height && b.dstX <= x < b.dstX + b.width
  }

  /** Every cell of the area lies in a block. */
  lemma BlocksCover(b: Block, y: nat, x: nat)
    requires b.Valid() && InArea(b, y, x)
    ensures b.dstY <= y && b.dstX <= x
    ensures var bi, bj := (y - b.dstY) / 4, (x - b.dstX) / 4;
            InBlock(b, bi, bj, y, x) && 4 * bi + 4 <= b.height && 4 * bj + 4 <= b.width && bi < b.height / 4
  {
  }

  /** What the class of the block with first row i and first column j means: activity counts one and a
      half times in the two block rows next to the virtual boundary. */
  ghost predicate BlockClassMeans(b: Block, img: Image, i: nat, j: nat, shift: nat, c: Class)
    requires b.Valid()
  {
    var row := (b.dstY + i) % b.ctuHeight;
    ClassMeans(c, SumOf(b, img, i, j), if row == b.vbPos - 4 || row == b.vbPos then 96 else 64, shift)
  }

  /** The first row (or column) of the block a cell lies in. */
  function BlockStart(first: nat, at: nat): (start: nat)
    requires first <= at
    ensures start == 4 * ((at - first) / 4)
  {
    4 * ((at - first) / 4)
  }

  /** Every cell of the area holds the class that the sums of its block call for. */
  ghost predicate AreaClassified(b: Block, img: Image, shift: nat, classifier: array2<Class>)
    requires b.Valid()
    reads classifier
  {
    forall y: nat, x: nat :: y < classifier.Length0 && x < classifier.Length1 && InArea(b, y, x) ==>
      BlockClassMeans(b, img, BlockStart(b.dstY, y), BlockStart(b.dstX, x), shift, classifier[y, x])
  }

  lemma ClassOfMeans(b: Block, img: Image, i: nat, j: nat, shift: nat)
    requires b.Valid()
    ensures BlockClassMeans(b, img, i, j, shift, ClassOf(b, img, i, j, shift))
  {
    var row := (b.dstY + i) % b.ctuHeight;
    hide Classify, ClassMeans, SumOf;
    ClassifyMeans(SumOf(b, img, i, j), if row == b.vbPos - 4 || row == b.vbPos then 96 else 64, shift);
  }

  lemma ClassifiedArea(b: Block, img: Image, shift: nat, classifier: array2<Class>)
    requires b.Valid() && Classified(b, img, shift, classifier, b.height / 4, 0)
    ensures AreaClassified(b, img, shift, classifier)
  {
    hide ClassOf, BlockClassMeans, InArea, InBlock, Block.Valid;
    forall y: nat, x: nat | y < classifier.Length0 && x < classifier.Length1 && InArea(b, y, x)
      ensures b.dstY <= y && b.dstX <= x
      ensures BlockClassMeans(b, img, BlockStart(b.dstY, y), BlockStart(b.dstX, x), shift, classifier[y, x])
    {
      BlocksCover(b, y, x);
      var bi, bj := (y - b.dstY) / 4, (x - b.dstX) / 4;
      assert BlockIs(b, classifier, bi, bj, ClassAt(b, img, bi, bj, shift));
      ClassOfMeans(b, img, 4 * bi, 4 * bj, shift);
    }
  }

  /** The cells outside the block's area are those of `was`. */
  ghost predicate OutsideIs(b: Block, classifier: array2<Class>, was: (nat, nat) -> Class)
    reads classifier
  {
    forall y: nat, x: nat :: y < classifier.Length0 && x < classifier.Length1 && !InArea(b, y, x) ==>
      classifier[y, x] == was(y, x)
  }

  /** One block of the second loop nest. */
  method ClassifyAndFill(b: Block, img: Image, rows: seq<array<Quad>>, shift: nat, classifier: array2<Class>,
                         n: nat, m: nat, ghost was: (nat, nat) -> Class)
    requires b.Valid() && b.height + 4 <= |rows| && RowsDone(b, img, rows, b.height + 4)
    requires 4 * n + 4 <= b.height && 4 * m + 4 <= b.width
    requires b.dstY + b.height <= classifier.Length0 && b.dstX + b.width <= classifier.Length1
    requires Classified(b, img, shift, classifier, n, m) && OutsideIs(b, classifier, was)
    modifies classifier
    ensures Classified(b, img, shift, classifier, n, m + 1) && OutsideIs(b, classifier, was)
  {
    hide RowsDone, ClassOf, RowOk;
    var c := ClassifyBlock(b, img, rows, n, m, shift);
    assert c == ClassAt(b, img, n, m, shift);
    hide ClassAt;
    FillBlock(b, classifier, n, m, c);
  }

  /** The whole classification: every 4x4 block of the area gets its class, nothing else changes. */
  method DeriveClassificationBlk(b: Block, img: Image, rows: seq<array<Quad>>, shift: nat, classifier: array2<Class>,
                                 ghost was: (nat, nat) -> Class)
    requires b.Valid() && b.height + 4 <= |rows| && Separate(rows)
    requires forall i :: 0 <= i < |rows| ==> b.width + 4 <= rows[i].Length
    requires b.dstY + b.height <= classifier.Length0 && b.dstX + b.width <= classifier.Length1
    requires OutsideIs(b, classifier, was)
    modifies rows, classifier
    ensures Classified(b, img, shift, classifier, b.height / 4, 0) && AreaClassified(b, img, shift, classifier)
    ensures OutsideIs(b, classifier, was)
  {
    AccumulateRows(b, img, rows);
    var blocksY, blocksX := b.height / 4, b.width / 4;
    assert b.height == 4 * blocksY && b.width == 4 * blocksX;
    assert Classified(b, img, shift, classifier, 0, 0);
    hide *;
    for n := 0 to blocksY
      modifies classifier
      invariant Classified(b, img, shift, classifier, n, 0) && OutsideIs(b, classifier, was)
    {
      for m := 0 to blocksX
        modifies classifier
        invariant Classified(b, img, shift, classifier, n, m) && OutsideIs(b, classifier, was)
      {
        ClassifyAndFill(b, img, rows, shift, classifier, n, m, was);
      }
      NextBlockRow(b, img, shift, classifier, n, blocksX);
    }
    ClassifiedArea(b, img, shift, classifier);
  }

  lemma NextBlockRow(b: Block, img: Image, shift: nat, classifier: array2<Class>, n: nat, m: nat)
    requires b.Valid() && b.width == 4 * m && Classified(b, img, shift, classifier, n, m)
    ensures Classified(b, img, shift, classifier, n + 1, 0)
  {
    hide BlockIs, ClassAt;
  }
}

/** What the classification sums mean: the gradients of every other sample of a window around the
    block, in a chequered pattern, with rows never crossing the virtual boundary. */
module AlfWindow {
  import opened AlfClassify
  import opened Arith

  /** Rows are taken no further than the first and last one given. */
  function Clamp(row: int, lo: int, hi: int): int {
    if row < lo then lo else if row > hi then hi else row
  }

  /** Second difference of a sample along a direction. */
  function Gradient(img: Image, dx: int, dy: int, x: int, y: int, lo: int, hi: int): nat {
    Abs(2 * img(x, y) - img(x - dx, Clamp(y - dy, lo, hi)) - img(x + dx, Clamp(y + dy, lo, hi)))
  }

  function Gradients(img: Image, x: int, y: int, lo: int, hi: int): Quad {
    Quad(Gradient(img, 0, 1, x, y, lo, hi), Gradient(img, 1, 0, x, y, lo, hi),
         Gradient(img, 1, 1, x, y, lo, hi), Gradient(img, -1, 1, x, y, lo, hi))
  }

  /** Every other sample of a row, n in all. */
  function RowSum(img: Image, x: int, y: int, n: nat, lo: int, hi: int): Quad {
    if n == 0 then Quad(0, 0, 0, 0)
    else Plus(RowSum(img, x, y, n - 1, lo, hi), Gradients(img, x + 2 * (n - 1), y, lo, hi))
  }

  /** A row of a window: columns two to the left of the block up to five to the right, those whose
      column and row have the same parity. */
  function ChequerRow(img: Image, x: int, y: int, r: int, lo: int, hi: int): Quad {
    RowSum(img, x - 2 + r % 2, y + r, 4, lo, hi)
  }

  /** The rows of a window: from `first` rows below the block's top, n of them. */
  function Window(img: Image, x: int, y: int, first: int, n: nat, lo: int, hi: int): Quad {
    if n == 0 then Quad(0, 0, 0, 0)
    else
      Plus(Window(img, x, y, first, n - 1, lo, hi), ChequerRow(img, x, y, first + n - 1, lo, hi))
  }

  /** Rows of the window and the rows its gradients may read. */
  datatype View = View(first: int, rows: nat, lo: int, hi: int)

  /** Above the virtual boundary the window ends at it, below it the window starts at it. */
  function ViewOf(b: Block, i: nat): View
    requires b.Valid()
  {
    var m, top := (i + b.dstY) % b.ctuHeight, b.posY + i;
    if m == b.vbPos - 4 then View(-2, 6, top - 3, top + 3)
    else if m == b.vbPos then View(0, 6, top, top + 6)
    else View(-2, 8, top - 3, top + 6)
  }

  ghost predicate InRange(img: Image, max: int) {
    forall x, y :: 0 <= img(x, y) <= max
  }

  /** CTU height and boundary in whole blocks, as `create` sets them. */
  ghost predicate Aligned(b: Block, i: nat) {
    && b.Valid() && b.ctuHeight == 4 * (b.ctuHeight / 4) && b.vbPos == 4 * (b.vbPos / 4)
    && b.dstY == 4 * (b.dstY / 4) && i == 4 * (i / 4) && 4 <= b.vbPos < b.ctuHeight
  }

  lemma CellIsPair(img: Image, x: int, y: int, r0: int, r3: int, lo: int, hi: int)
    requires InRange(img, 0x3FFF) && lo <= y && y + 1 <= hi
    requires r0 == Clamp(y - 1, lo, hi) && r3 == Clamp(y + 2, lo, hi)
    ensures CellAt(img, x, y, r0, r3) == Plus(Gradients(img, x, y, lo, hi), Gradients(img, x + 1, y + 1, lo, hi))
  {
    assert 0 <= img(x, y) <= 0x3FFF && 0 <= img(x + 1, y + 1) <= 0x3FFF;
    TwiceIsExact(img(x, y));
    TwiceIsExact(img(x + 1, y + 1));
    ClampInside(y, lo, hi);
    hide *;
    GradientsAt(img, x, y, lo, hi, r0, y + 1);
    GradientsAt(img, x + 1, y + 1, lo, hi, y, r3);
    PairMeans(img, x, y, r0, r3);
  }

  lemma ClampInside(y: int, lo: int, hi: int)
    requires lo <= y && y + 1 <= hi
    ensures Clamp(y, lo, hi) == y && Clamp(y + 1, lo, hi) == y + 1
  {
  }

  /** The differences of one sample, given the rows above and below. */
  function Differences(img: Image, x: int, y: int, up: int, down: int): Quad {
    Quad(Abs(2 * img(x, y) - img(x, up) - img(x, down)),
         Abs(2 * img(x, y) - img(x + 1, y) - img(x - 1, y)),
         Abs(2 * img(x, y) - img(x - 1, up) - img(x + 1, down)),
         Abs(2 * img(x, y) - img(x - 1, down) - img(x + 1, up)))
  }

  lemma PairMeans(img: Image, x: int, y: int, r0: int, r3: int)
    requires Twice(img(x, y)) == 2 * img(x, y) && Twice(img(x + 1, y + 1)) == 2 * img(x + 1, y + 1)
    ensures CellAt(img, x, y, r0, r3) == Plus(Differences(img, x, y, r0, y + 1), Differences(img, x + 1, y + 1, y, r3))
  {
    hide Twice, Abs;
    assert x + 1 + 1 == x + 2 && x + 1 - 1 == x;
  }

  /** The four differences, given the rows above and below. */
  lemma GradientsAt(img: Image, x: int, y: int, lo: int, hi: int, up: int, down: int)
    requires lo <= y <= hi && up == Clamp(y - 1, lo, hi) && down == Clamp(y + 1, lo, hi)
    ensures Gradients(img, x, y, lo, hi) == Differences(img, x, y, up, down)
  {
    hide Abs;
  }

  lemma FourArePairs(b: Block, img: Image, i: nat, j: nat, lo: int, hi: int)
    requires b.Valid() && InRange(img, 0x3FFF)
    requires var y := b.posY + i - 2;
             lo <= y && y + 1 <= hi && RowAbove(b, i) == Clamp(y - 1, lo, hi) && RowBelow(b, i) == Clamp(y + 2, lo, hi)
    ensures var x, y := b.posX + j - 2, b.posY + i - 2;
            FourCells(b, img, i, j) == Plus(RowSum(img, x, y, 4, lo, hi), RowSum(img, x + 1, y + 1, 4, lo, hi))
  {
    var x, y := b.posX + j - 2, b.posY + i - 2;
    hide CellAt, Gradients, InRange, RowAbove, RowBelow, Clamp, RowSum, Plus;
    PairAt(b, img, i, j, x, y, lo, hi);
    PairAt(b, img, i, j + 2, x + 2, y, lo, hi);
    PairAt(b, img, i, j + 4, x + 4, y, lo, hi);
    PairAt(b, img, i, j + 6, x + 6, y, lo, hi);
    hide Cell;
    FourOfRow(img, x, y, lo, hi);
    FourOfRow(img, x + 1, y + 1, lo, hi);
    PlusRegroup(Gradients(img, x, y, lo, hi), Gradients(img, x + 1, y + 1, lo, hi),
                Gradients(img, x + 2, y, lo, hi), Gradients(img, x + 3, y + 1, lo, hi),
                Gradients(img, x + 4, y, lo, hi), Gradients(img, x + 5, y + 1, lo, hi),
                Gradients(img, x + 6, y, lo, hi), Gradients(img, x + 7, y + 1, lo, hi));
  }

  lemma PairAt(b: Block, img: Image, i: nat, j: nat, x: int, y: int, lo: int, hi: int)
    requires b.Valid() && InRange(img, 0x3FFF) && x == b.posX + j - 2 && y == b.posY + i - 2
    requires lo <= y && y + 1 <= hi && RowAbove(b, i) == Clamp(y - 1, lo, hi) && RowBelow(b, i) == Clamp(y + 2, lo, hi)
    ensures Cell(b, img, i, j) == Plus(Gradients(img, x, y, lo, hi), Gradients(img, x + 1, y + 1, lo, hi))
  {
    hide CellAt, Gradients, InRange, RowAbove, RowBelow, Clamp, Plus;
    CellIsPair(img, x, y, RowAbove(b, i), RowBelow(b, i), lo, hi);
  }

  lemma PlusRegroup(a1: Quad, b1: Quad, a2: Quad, b2: Quad, a3: Quad, b3: Quad, a4: Quad, b4: Quad)
    ensures Plus(Plus(a1, b1), Plus(Plus(Plus(a2, b2), Plus(a3, b3)), Plus(a4, b4)))
         == Plus(Plus(Plus(a1, a2), Plus(a3, a4)), Plus(Plus(b1, b2), Plus(b3, b4)))
  {
  }

  lemma FourOfRow(img: Image, x: int, y: int, lo: int, hi: int)
    ensures RowSum(img, x, y, 4, lo, hi)
         == Plus(Plus(Gradients(img, x, y, lo, hi), Gradients(img, x + 2, y, lo, hi)),
                 Plus(Gradients(img, x + 4, y, lo, hi), Gradients(img, x + 6, y, lo, hi)))
  {
    hide Gradients;
    assert RowSum(img, x, y, 2, lo, hi) == Plus(RowSum(img, x, y, 1, lo, hi), Gradients(img, x + 2, y, lo, hi));
    assert RowSum(img, x, y, 1, lo, hi) == Plus(RowSum(img, x, y, 0, lo, hi), Gradients(img, x, y, lo, hi));
  }

  lemma ModShift(y: nat, h: nat, d: int, k: int)
    requires h > 0 && 0 <= y % h + d - k * h < h
    ensures (y + d) % h == y % h + d - k * h
  {
    var q, m := y / h, y % h;
    assert y == q * h + m && (q + k) * h == q * h + k * h;
    DivModUnique(q + k, m + d - k * h, h);
  }

  /** The position of an aligned block in its CTU, in samples, is a whole number of blocks. */
  lemma AlignedPosition(b: Block, i: nat)
    requires Aligned(b, i)
    ensures var m := (i + b.dstY) % b.ctuHeight; m == 4 * (m / 4) && m + 4 <= b.ctuHeight
  {
    FourTimes(i / 4 + b.dstY / 4, b.ctuHeight / 4);
  }

  /** Remainders of multiples of four are multiples of four. */
  lemma FourTimes(a: nat, h: nat)
    requires h > 0
    ensures var m := (4 * a) % (4 * h); m == 4 * (m / 4) && m + 4 <= 4 * h
  {
    var q, r := a / h, a % h;
    assert a == q * h + r;
    assert 4 * (q * h + r) == q * (4 * h) + 4 * r;
    DivModUnique(q, 4 * r, 4 * h);
  }

  /** Which rows are substituted for the cell row c below the window's top. */
  lemma SubstitutedRows(b: Block, i: nat, c: nat)
    requires Aligned(b, i) && (c == 0 || c == 2 || c == 4 || c == 6)
    ensures var m, row := (i + b.dstY) % b.ctuHeight, b.posY + i + c - 2;
            && (c == 4 && m == b.vbPos - 4 ==> RowAbove(b, i + c) == row - 1 && RowBelow(b, i + c) == row + 1)
            && (c == 2 && m == b.vbPos ==> RowAbove(b, i + c) == row && RowBelow(b, i + c) == row + 2)
            && (m != b.vbPos - 4 && m != b.vbPos ==> RowAbove(b, i + c) == row - 1 && RowBelow(b, i + c) == row + 2)
            && (m == b.vbPos - 4 && c < 4 ==> RowAbove(b, i + c) == row - 1 && RowBelow(b, i + c) == row + 2)
            && (m == b.vbPos && c > 2 ==> RowAbove(b, i + c) == row - 1 && RowBelow(b, i + c) == row + 2)
  {
    hide *;
    AlignedHeight(b, i);
    AlignedPosition(b, i);
    var y, h := i + b.dstY, b.ctuHeight;
    ShiftedPositions(y, h, c, y % h);
    PositionIsSmall(y, h);
    SubstitutedBy(b, i, c, y % h);
  }

  lemma AlignedHeight(b: Block, i: nat)
    requires Aligned(b, i)
    ensures b.Valid() && b.ctuHeight > 0
  {
  }

  /** Where in its CTU a row of cells lies, two rows above the block or two, four or six further down. */
  lemma ShiftedPositions(y: nat, h: nat, c: nat, m: nat)
    requires h > 0 && m == y % h && m == 4 * (m / 4) && m + 4 <= h && (c == 0 || c == 2 || c == 4 || c == 6)
    ensures c == 0 && y > 0 ==> (y - 2) % h == if m == 0 then h - 2 else m - 2
    ensures c == 4 ==> (y + 2) % h == m + 2
    ensures c == 6 ==> (y + 4) % h == if m + 4 == h then 0 else m + 4
  {
    if c == 0 && y > 0 {
      ModShift(y, h, -2, if m == 0 then -1 else 0);
    } else if c == 4 {
      ModShift(y, h, 2, 0);
    } else if c == 6 {
      ModShift(y, h, 4, if m + 4 == h then 1 else 0);
    }
  }

  lemma PositionIsSmall(y: nat, h: nat)
    requires h > 0
    ensures y % h <= y
  {
    if y < h {
      DivModUnique(0, y, h);
    }
  }

  lemma SubstitutedBy(b: Block, i: nat, c: nat, m: nat)
    requires Aligned(b, i) && (c == 0 || c == 2 || c == 4 || c == 6) && m == 4 * (m / 4) && m + 4 <= b.ctuHeight
    requires m <= i + b.dstY
    requires var y, h := b.dstY - 2 + i + c, b.ctuHeight;
             && (c == 0 && y > 0 ==> y % h == if m == 0 then h - 2 else m - 2)
             && (c == 2 ==> y % h == m)
             && (c == 4 ==> y % h == m + 2)
             && (c == 6 ==> y % h == if m + 4 == h then 0 else m + 4)
    ensures var row := b.posY + i + c - 2;
            var below, above := (c == 4 && m == b.vbPos - 4) || (c == 0 && m == b.vbPos),
                                (c == 2 && m == b.vbPos) || (c == 6 && m == b.vbPos - 4);
            && (RowBelow(b, i + c) == if below then row + 1 else row + 2)
            && (RowAbove(b, i + c) == if above then row else row - 1)
  {
  }

  /** Two neighbouring rows of a window. */
  function Pair(img: Image, x: int, y: int, r: int, lo: int, hi: int): Quad {
    Plus(RowSum(img, x - 2, y + r, 4, lo, hi), RowSum(img, x - 1, y + r + 1, 4, lo, hi))
  }

  lemma WindowPair(img: Image, x: int, y: int, first: int, n: nat, lo: int, hi: int)
    requires first % 2 == 0 && n % 2 == 0
    ensures Window(img, x, y, first, n + 2, lo, hi)
         == Plus(Window(img, x, y, first, n, lo, hi), Pair(img, x, y, first + n, lo, hi))
  {
    hide RowSum;
    assert Window(img, x, y, first, n + 2, lo, hi)
        == Plus(Window(img, x, y, first, n + 1, lo, hi), RowSum(img, x - 1, y + first + n + 1, 4, lo, hi));
    assert Window(img, x, y, first, n + 1, lo, hi)
        == Plus(Window(img, x, y, first, n, lo, hi), RowSum(img, x - 2, y + first + n, 4, lo, hi));
  }

  lemma WindowOfPairs(img: Image, x: int, y: int, first: int, lo: int, hi: int)
    requires first % 2 == 0
    ensures var six := Plus(Plus(Pair(img, x, y, first, lo, hi), Pair(img, x, y, first + 2, lo, hi)),
                            Pair(img, x, y, first + 4, lo, hi));
            && Window(img, x, y, first, 6, lo, hi) == six
            && Window(img, x, y, first, 8, lo, hi) == Plus(six, Pair(img, x, y, first + 6, lo, hi))
  {
    hide Window, Pair, Plus;
    WindowPair(img, x, y, first, 0, lo, hi);
    WindowPair(img, x, y, first, 2, lo, hi);
    WindowPair(img, x, y, first, 4, lo, hi);
    WindowPair(img, x, y, first, 6, lo, hi);
    NoWindow(img, x, y, first, lo, hi, Pair(img, x, y, first, lo, hi));
  }

  lemma NoWindow(img: Image, x: int, y: int, first: int, lo: int, hi: int, p: Quad)
    ensures Plus(Window(img, x, y, first, 0, lo, hi), p) == p
  {
  }

  /** The cells of one row pair are two rows of the window. */
  lemma CellRow(b: Block, img: Image, i: nat, c: nat, j: nat, v: View)
    requires Aligned(b, i) && InRange(img, 0x3FFF) && (c == 0 || c == 2 || c == 4 || c == 6) && v == ViewOf(b, i)
    requires v.first <= c - 2 < v.first + v.rows
    ensures FourCells(b, img, i + c, j) == Pair(img, b.posX + j, b.posY + i, c - 2, v.lo, v.hi)
  {
    hide RowAbove, RowBelow, InRange, FourCells, RowSum, Plus;
    SubstitutedRows(b, i, c);
    FourArePairs(b, img, i + c, j, v.lo, v.hi);
  }

  /** Summing the cell rows of a view. */
  function RowsTotal(v: View, s0: Quad, s2: Quad, s4: Quad, s6: Quad): Quad {
    if v.rows == 8 then Plus(Plus(Plus(s0, s2), s4), s6)
    else if v.first == 0 then Plus(Plus(s2, s4), s6) else Plus(Plus(s0, s2), s4)
  }

  ghost predicate Shape(v: View) {
    (v.first == -2 && v.rows == 6) || (v.first == 0 && v.rows == 6) || (v.first == -2 && v.rows == 8)
  }

  lemma SumCases(b: Block, img: Image, i: nat, j: nat)
    requires b.Valid()
    ensures Shape(ViewOf(b, i))
    ensures SumOf(b, img, i, j)
         == RowsTotal(ViewOf(b, i), FourCells(b, img, i, j), FourCells(b, img, i + 2, j),
                      FourCells(b, img, i + 4, j), FourCells(b, img, i + 6, j))
  {
    hide FourCells, Plus;
  }

  lemma TotalIsWindow(img: Image, x: int, y: int, v: View, s0: Quad, s2: Quad, s4: Quad, s6: Quad)
    requires Shape(v)
    requires v.first <= -2 < v.first + v.rows ==> s0 == Pair(img, x, y, -2, v.lo, v.hi)
    requires s2 == Pair(img, x, y, 0, v.lo, v.hi) && s4 == Pair(img, x, y, 2, v.lo, v.hi)
    requires v.first <= 4 < v.first + v.rows ==> s6 == Pair(img, x, y, 4, v.lo, v.hi)
    ensures RowsTotal(v, s0, s2, s4, s6) == Window(img, x, y, v.first, v.rows, v.lo, v.hi)
  {
    hide Pair, Plus, Window;
    WindowOfPairs(img, x, y, v.first, v.lo, v.hi);
  }

  /** The program's sums, in place and four cells at a time, are the window's. */
  lemma SumIsWindow(b: Block, img: Image, i: nat, j: nat)
    requires Aligned(b, i) && InRange(img, 0x3FFF)
    ensures var v := ViewOf(b, i);
            SumOf(b, img, i, j) == Window(img, b.posX + j, b.posY + i, v.first, v.rows, v.lo, v.hi)
  {
    hide InRange, FourCells, Pair, Window, RowsTotal, SumOf, ViewOf, Shape;
    SumCases(b, img, i, j);
    CellRows(b, img, i, j, ViewOf(b, i));
    TotalIsWindow(img, b.posX + j, b.posY + i, ViewOf(b, i), FourCells(b, img, i, j), FourCells(b, img, i + 2, j),
                  FourCells(b, img, i + 4, j), FourCells(b, img, i + 6, j));
  }

  /** So a class says what the gradients of the window are: their activity and their leading direction. */
  lemma ClassFromWindow(b: Block, img: Image, i: nat, j: nat, shift: nat)
    requires Aligned(b, i) && InRange(img, 0x3FFF)
    ensures var v := ViewOf(b, i);
            ClassMeans(ClassOf(b, img, i, j, shift), Window(img, b.posX + j, b.posY + i, v.first, v.rows, v.lo, v.hi),
                       if v.rows == 6 then 96 else 64, shift)
  {
    hide InRange, SumOf, Window, ClassOf, ClassMeans;
    SumIsWindow(b, img, i, j);
    ClassOfMeans(b, img, i, j, shift);
  }

  lemma CellRows(b: Block, img: Image, i: nat, j: nat, v: View)
    requires Aligned(b, i) && InRange(img, 0x3FFF) && v == ViewOf(b, i)
    ensures v.first <= -2 < v.first + v.rows ==>
      FourCells(b, img, i, j) == Pair(img, b.posX + j, b.posY + i, -2, v.lo, v.hi)
    ensures FourCells(b, img, i + 2, j) == Pair(img, b.posX + j, b.posY + i, 0, v.lo, v.hi)
    ensures FourCells(b, img, i + 4, j) == Pair(img, b.posX + j, b.posY + i, 2, v.lo, v.hi)
    ensures v.first <= 4 < v.first + v.rows ==>
      FourCells(b, img, i + 6, j) == Pair(img, b.posX + j, b.posY + i, 4, v.lo, v.hi)
  {
    hide InRange, FourCells, Pair;
    CellRow(b, img, i, 2, j, v);
    CellRow(b, img, i, 4, j, v);
    if v.first <= -2 < v.first + v.rows {
      CellRow(b, img, i, 0, j, v);
    }
    if v.first <= 4 < v.first + v.rows {
      CellRow(b, img, i, 6, j, v);
    }
  }

  // ---- ten bits ----

  ghost predicate AtMost(s: Quad, bound: int) {
    s.ver <= bound && s.hor <= bound && s.dig0 <= bound && s.dig1 <= bound
  }

  lemma GradientsAtMost(img: Image, x: int, y: int, lo: int, hi: int)
    requires InRange(img, 1023)
    ensures AtMost(Gradients(img, x, y, lo, hi), 2046)
  {
    hide Clamp;
  }

  lemma PlusAtMost(a: Quad, b: Quad, m: int, n: int)
    requires AtMost(a, m) && AtMost(b, n)
    ensures AtMost(Plus(a, b), m + n)
  {
  }

  lemma RowNext(img: Image, x: int, y: int, n: nat, lo: int, hi: int)
    ensures if n == 0 then AtMost(RowSum(img, x, y, n, lo, hi), 0)
            else RowSum(img, x, y, n, lo, hi) ==
                 Plus(RowSum(img, x, y, n - 1, lo, hi), Gradients(img, x + 2 * (n - 1), y, lo, hi))
  {
    hide Gradients, Plus;
  }

  lemma {:induction false} RowAtMost(img: Image, x: int, y: int, n: nat, lo: int, hi: int)
    requires InRange(img, 1023)
    ensures AtMost(RowSum(img, x, y, n, lo, hi), 2046 * n)
  {
    hide *;
    RowNext(img, x, y, n, lo, hi);
    if n > 0 {
      RowAtMost(img, x, y, n - 1, lo, hi);
      GradientsAtMost(img, x + 2 * (n - 1), y, lo, hi);
      PlusAtMost(RowSum(img, x, y, n - 1, lo, hi), Gradients(img, x + 2 * (n - 1), y, lo, hi), 2046 * (n - 1), 2046);
    }
  }

  lemma ChequerRowAtMost(img: Image, x: int, y: int, r: int, lo: int, hi: int)
    requires InRange(img, 1023)
    ensures AtMost(ChequerRow(img, x, y, r, lo, hi), 8184)
  {
    hide RowSum, InRange, AtMost;
    RowAtMost(img, x - 2 + r % 2, y + r, 4, lo, hi);
  }

  lemma WindowStep(img: Image, x: int, y: int, first: int, n: nat, lo: int, hi: int)
    ensures AtMost(Window(img, x, y, first, 0, lo, hi), 0)
    ensures Window(img, x, y, first, n + 1, lo, hi)
         == Plus(Window(img, x, y, first, n, lo, hi), ChequerRow(img, x, y, first + n, lo, hi))
  {
  }

  lemma {:induction false} WindowAtMost(img: Image, x: int, y: int, first: int, n: nat, lo: int, hi: int)
    requires InRange(img, 1023)
    ensures AtMost(Window(img, x, y, first, n, lo, hi), 8184 * n)
  {
    hide *;
    if n == 0 {
      WindowStep(img, x, y, first, 0, lo, hi);
    } else {
      WindowAtMost(img, x, y, first, n - 1, lo, hi);
      WindowStep(img, x, y, first, n - 1, lo, hi);
      ChequerRowAtMost(img, x, y, first + n - 1, lo, hi);
      PlusAtMost(Window(img, x, y, first, n - 1, lo, hi), ChequerRow(img, x, y, first + n - 1, lo, hi), 8184 * (n - 1),
                 8184);
    }
  }

  /** The diagonal pair is the stronger one by the true ratios of the sums. */
  predicate TrulyDiagonal(s: Quad) {
    Greater(s.dig0, s.dig1) * Lesser(s.ver, s.hor) > Greater(s.ver, s.hor) * Lesser(s.dig0, s.dig1)
  }

  /** The diagonal pair is the one the program chooses. */
  predicate FoundDiagonal(s: Quad)
    requires NonNegative(s)
  {
    DiagonalWins(Greater(s.dig0, s.dig1), Lesser(s.ver, s.hor), Greater(s.ver, s.hor), Lesser(s.dig0, s.dig1))
  }

  ghost predicate DecidedExactly(s: Quad)
    requires NonNegative(s)
  {
    FoundDiagonal(s) <==> TrulyDiagonal(s)
  }

  lemma SmallSumsDecide(s: Quad)
    requires NonNegative(s) && AtMost(s, 64 * 1023)
    ensures DecidedExactly(s)
  {
    hide DiagonalWins;
    ComparisonIsExact(Greater(s.dig0, s.dig1), Lesser(s.ver, s.hor), Greater(s.ver, s.hor), Lesser(s.dig0, s.dig1));
  }

  /** With ten-bit samples the sums stay within 64 times 1023, and no product wraps. */
  lemma TenBitSumsFit(b: Block, img: Image, i: nat, j: nat)
    requires Aligned(b, i) && InRange(img, 1023)
    ensures AtMost(SumOf(b, img, i, j), 64 * 1023) && DecidedExactly(SumOf(b, img, i, j))
  {
    hide Window, SumOf, DecidedExactly, InRange, ViewOf, AtMost;
    TenBitsInRange(img);
    SumIsWindow(b, img, i, j);
    ViewAtMost(img, b.posX + j, b.posY + i, b, i);
    SmallSumsDecide(SumOf(b, img, i, j));
  }

  lemma TenBitsInRange(img: Image)
    requires InRange(img, 1023)
    ensures InRange(img, 0x3FFF)
  {
  }

  lemma ViewAtMost(img: Image, x: int, y: int, b: Block, i: nat)
    requires InRange(img, 1023) && b.Valid()
    ensures var v := ViewOf(b, i); AtMost(Window(img, x, y, v.first, v.rows, v.lo, v.hi), 64 * 1023)
  {
    var v := ViewOf(b, i);
    hide Window, InRange;
    WindowAtMost(img, x, y, v.first, v.rows, v.lo, v.hi);
  }
}

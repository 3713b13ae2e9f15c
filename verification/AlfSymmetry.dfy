/** Which changes of the picture leave the class of a block as it is. The gradients are taken in a
    chequered pattern, which a transposition and a half turn preserve but a mirror image does not. */
module AlfSymmetry {
  import opened AlfClassify
  import opened AlfWindow
  import opened AlfBitDepth
  import opened Bits

  // ---- blocks away from the virtual boundary ----

  /** The block's window does not touch the virtual boundary. */
  ghost predicate Away(b: Block, i: nat)
    requires b.Valid()
  {
    var m := (i + b.dstY) % b.ctuHeight;
    m != b.vbPos - 4 && m != b.vbPos
  }

  function PlainCell(img: Image, x: int, y: int): Quad {
    CellAt(img, x, y, y - 1, y + 2)
  }

  function CellLine(img: Image, x: int, y: int): Quad {
    Plus(PlainCell(img, x, y),
         Plus(Plus(PlainCell(img, x + 2, y), PlainCell(img, x + 4, y)), PlainCell(img, x + 6, y)))
  }

  /** The sixteen cells around the block at a position. */
  function Square(img: Image, x: int, y: int): Quad {
    Plus(Plus(Plus(CellLine(img, x - 2, y - 2), CellLine(img, x - 2, y)), CellLine(img, x - 2, y + 2)),
         CellLine(img, x - 2, y + 4))
  }

  lemma PlainAt(b: Block, img: Image, i: nat, j: nat)
    requires b.Valid() && RowAbove(b, i) == b.posY + i - 3 && RowBelow(b, i) == b.posY + i
    ensures Cell(b, img, i, j) == PlainCell(img, b.posX + j - 2, b.posY + i - 2)
  {
    hide CellAt, RowAbove, RowBelow;
  }

  lemma FourArePlain(b: Block, img: Image, i: nat, c: nat, j: nat)
    requires Aligned(b, i) && Away(b, i) && (c == 0 || c == 2 || c == 4 || c == 6)
    ensures FourCells(b, img, i + c, j) == CellLine(img, b.posX + j - 2, b.posY + i + c - 2)
  {
    hide Cell, PlainCell, RowAbove, RowBelow, Plus;
    SubstitutedRows(b, i, c);
    PlainAt(b, img, i + c, j);
    PlainAt(b, img, i + c, j + 2);
    PlainAt(b, img, i + c, j + 4);
    PlainAt(b, img, i + c, j + 6);
  }

  lemma SumAway(b: Block, img: Image, i: nat, j: nat)
    requires b.Valid() && Away(b, i)
    ensures SumOf(b, img, i, j)
         == Plus(Plus(Plus(FourCells(b, img, i, j), FourCells(b, img, i + 2, j)), FourCells(b, img, i + 4, j)),
                 FourCells(b, img, i + 6, j))
  {
    hide FourCells, Plus;
  }

  lemma SquareMeans(img: Image, x: int, y: int)
    ensures Square(img, x, y)
         == Plus(Plus(Plus(CellLine(img, x - 2, y - 2), CellLine(img, x - 2, y)), CellLine(img, x - 2, y + 2)),
                 CellLine(img, x - 2, y + 4))
  {
    hide CellLine, Plus;
  }

  lemma SumIsSquare(b: Block, img: Image, i: nat, j: nat)
    requires Aligned(b, i) && Away(b, i)
    ensures SumOf(b, img, i, j) == Square(img, b.posX + j, b.posY + i)
  {
    hide *;
    AlignedIsValid(b, i);
    SumAway(b, img, i, j);
    FourArePlain(b, img, i, 0, j);
    FourArePlain(b, img, i, 2, j);
    FourArePlain(b, img, i, 4, j);
    FourArePlain(b, img, i, 6, j);
    SquareMeans(img, b.posX + j, b.posY + i);
  }

  lemma AlignedIsValid(b: Block, i: nat)
    requires Aligned(b, i)
    ensures b.Valid()
  {
  }

  // ---- transposition ----

  function Transposed(img: Image): Image {
    (x, y) => img(y, x)
  }

  function Swapped(s: Quad): Quad {
    Quad(s.hor, s.ver, s.dig0, s.dig1)
  }

  lemma CellTransposed(img: Image, x: int, y: int)
    ensures PlainCell(Transposed(img), y, x) == Swapped(PlainCell(img, x, y))
  {
    hide Twice, Abs;
  }

  /** A column of cells. */
  function CellColumn(img: Image, x: int, y: int): Quad {
    Plus(PlainCell(img, x, y),
         Plus(Plus(PlainCell(img, x, y + 2), PlainCell(img, x, y + 4)), PlainCell(img, x, y + 6)))
  }

  lemma SwappedFour(a: Quad, b: Quad, c: Quad, d: Quad)
    ensures Plus(Swapped(a), Plus(Plus(Swapped(b), Swapped(c)), Swapped(d))) == Swapped(Plus(a, Plus(Plus(b, c), d)))
    ensures Plus(Plus(Plus(Swapped(a), Swapped(b)), Swapped(c)), Swapped(d)) == Swapped(Plus(Plus(Plus(a, b), c), d))
  {
  }

  lemma LineTransposed(img: Image, x: int, y: int)
    ensures CellLine(Transposed(img), y, x) == Swapped(CellColumn(img, x, y))
  {
    CellTransposed(img, x, y);
    CellTransposed(img, x, y + 2);
    CellTransposed(img, x, y + 4);
    CellTransposed(img, x, y + 6);
    hide PlainCell, Transposed, Plus, Swapped;
    SwappedFour(PlainCell(img, x, y), PlainCell(img, x, y + 2), PlainCell(img, x, y + 4), PlainCell(img, x, y + 6));
  }

  lemma SquareByColumns(img: Image, x: int, y: int)
    ensures Plus(Plus(Plus(CellColumn(img, x - 2, y - 2), CellColumn(img, x, y - 2)), CellColumn(img, x + 2, y - 2)),
                 CellColumn(img, x + 4, y - 2)) == Square(img, x, y)
  {
    hide PlainCell;
  }

  lemma SquareTransposed(img: Image, x: int, y: int)
    ensures Square(Transposed(img), y, x) == Swapped(Square(img, x, y))
  {
    SquareByColumns(img, x, y);
    hide CellColumn, CellLine, Transposed, Plus, Swapped;
    LineTransposed(img, x - 2, y - 2);
    LineTransposed(img, x, y - 2);
    LineTransposed(img, x + 2, y - 2);
    LineTransposed(img, x + 4, y - 2);
    SwappedFour(CellColumn(img, x - 2, y - 2), CellColumn(img, x, y - 2), CellColumn(img, x + 2, y - 2),
                CellColumn(img, x + 4, y - 2));
  }

  /** Transposing the picture exchanges the vertical and horizontal sums and keeps both diagonal ones. */
  lemma TransposedSum(b: Block, t: Block, img: Image, i: nat, j: nat, k: nat, l: nat)
    requires Aligned(b, i) && Away(b, i) && Aligned(t, k) && Away(t, k)
    requires t.posX + l == b.posY + i && t.posY + k == b.posX + j
    ensures SumOf(t, Transposed(img), k, l) == Swapped(SumOf(b, img, i, j))
  {
    hide SumOf, Square, Transposed, Swapped, Aligned;
    SumIsSquare(b, img, i, j);
    SumIsSquare(t, Transposed(img), k, l);
    SquareTransposed(img, b.posX + j, b.posY + i);
  }

  lemma AwayClass(b: Block, img: Image, i: nat, j: nat, shift: nat)
    requires b.Valid() && Away(b, i)
    ensures ClassOf(b, img, i, j, shift) == Classify(SumOf(b, img, i, j), 64, shift)
  {
    hide SumOf, Classify;
  }

  lemma SwappedClass(s: Quad, shift: nat)
    requires NonNegative(s)
    ensures var c, d := Classify(s, 64, shift), Classify(Swapped(s), 64, shift);
            && d.classIdx == c.classIdx
            && d.transposeIdx == if s.ver == s.hor then c.transposeIdx
                                 else if c.transposeIdx % 2 == 0 then c.transposeIdx + 1 else c.transposeIdx - 1
  {
    hide Classify;
    PairsAreUnordered(s, 64, shift);
    OrientationMeaning(s, 64, shift);
    OrientationMeaning(Swapped(s), 64, shift);
  }

  /** So the class is kept, and the orientation is transposed unless both sums are equal. */
  lemma TransposedClassOf(b: Block, t: Block, img: Image, i: nat, j: nat, k: nat, l: nat, shift: nat)
    requires Aligned(b, i) && Away(b, i) && Aligned(t, k) && Away(t, k)
    requires t.posX + l == b.posY + i && t.posY + k == b.posX + j
    ensures var s, c, d := SumOf(b, img, i, j), ClassOf(b, img, i, j, shift),
                           ClassOf(t, Transposed(img), k, l, shift);
            && d.classIdx == c.classIdx
            && d.transposeIdx == if s.ver == s.hor then c.transposeIdx
                                 else if c.transposeIdx % 2 == 0 then c.transposeIdx + 1 else c.transposeIdx - 1
  {
    hide SumOf, Classify, Transposed, Away, ClassOf, Swapped;
    TransposedSum(b, t, img, i, j, k, l);
    AwayClass(b, img, i, j, shift);
    AwayClass(t, Transposed(img), k, l, shift);
    SwappedClass(SumOf(b, img, i, j), shift);
  }

  // ---- half turns ----

  /** The picture turned by 180 degrees about a point. */
  function Turned(img: Image, cx: int, cy: int): Image {
    (x, y) => img(cx - x, cy - y)
  }

  lemma CellTurned(img: Image, cx: int, cy: int, x: int, y: int)
    ensures PlainCell(Turned(img, cx, cy), cx - 1 - x, cy - 1 - y) == PlainCell(img, x, y)
  {
    hide Twice, Abs;
  }

  lemma LineTurned(img: Image, cx: int, cy: int, x: int, y: int)
    ensures CellLine(Turned(img, cx, cy), cx - 7 - x, cy - 1 - y) == CellLine(img, x, y)
  {
    CellTurned(img, cx, cy, x, y);
    CellTurned(img, cx, cy, x + 2, y);
    CellTurned(img, cx, cy, x + 4, y);
    CellTurned(img, cx, cy, x + 6, y);
    hide PlainCell, Turned;
  }

  lemma SquareTurned(img: Image, cx: int, cy: int, x: int, y: int)
    ensures Square(Turned(img, cx, cy), cx - 3 - x, cy - 3 - y) == Square(img, x, y)
  {
    LineTurned(img, cx, cy, x - 2, y - 2);
    LineTurned(img, cx, cy, x - 2, y);
    LineTurned(img, cx, cy, x - 2, y + 2);
    LineTurned(img, cx, cy, x - 2, y + 4);
    hide CellLine, Turned;
  }

  /** A half turn keeps all four sums, so class and orientation. */
  lemma TurnedClassOf(b: Block, t: Block, img: Image, i: nat, j: nat, k: nat, l: nat, shift: nat)
    requires Aligned(b, i) && Away(b, i) && Aligned(t, k) && Away(t, k)
    ensures var half := Turned(img, b.posX + j + t.posX + l + 3, b.posY + i + t.posY + k + 3);
            && SumOf(t, half, k, l) == SumOf(b, img, i, j)
            && ClassOf(t, half, k, l, shift) == ClassOf(b, img, i, j, shift)
  {
    var cx, cy := b.posX + j + t.posX + l + 3, b.posY + i + t.posY + k + 3;
    var half := Turned(img, cx, cy);
    hide SumOf, Classify, Turned, Away, ClassOf, Square;
    SumIsSquare(b, img, i, j);
    SumIsSquare(t, half, k, l);
    SquareTurned(img, cx, cy, b.posX + j, b.posY + i);
    AwayClass(b, img, i, j, shift);
    AwayClass(t, half, k, l, shift);
  }

  // ---- mirror images ----

  /** The picture reflected in a column. */
  function Reflected(img: Image, cx: int): Image {
    (x, y) => img(cx - x, y)
  }

  /** Both diagonals exchanged. */
  function Exchanged(s: Quad): Quad {
    Quad(s.ver, s.hor, s.dig1, s.dig0)
  }

  /** The samples of a row that the program leaves out: column and row differ in parity. */
  function OtherRow(img: Image, x: int, y: int, r: int, lo: int, hi: int): Quad {
    RowSum(img, x - 2 + (r + 1) % 2, y + r, 4, lo, hi)
  }

  /** The other half of the window. */
  function OtherWindow(img: Image, x: int, y: int, first: int, n: nat, lo: int, hi: int): Quad {
    if n == 0 then Quad(0, 0, 0, 0)
    else Plus(OtherWindow(img, x, y, first, n - 1, lo, hi), OtherRow(img, x, y, first + n - 1, lo, hi))
  }

  lemma GradientsReflected(img: Image, cx: int, x: int, y: int, lo: int, hi: int)
    ensures Gradients(Reflected(img, cx), cx - x, y, lo, hi) == Exchanged(Gradients(img, x, y, lo, hi))
  {
    hide Clamp;
  }

  lemma ExchangedPlus(a: Quad, b: Quad)
    ensures Plus(Exchanged(a), Exchanged(b)) == Exchanged(Plus(a, b))
  {
  }

  lemma ExchangedFour(a: Quad, b: Quad, c: Quad, d: Quad)
    ensures Plus(Plus(Exchanged(d), Exchanged(c)), Plus(Exchanged(b), Exchanged(a)))
         == Exchanged(Plus(Plus(a, b), Plus(c, d)))
  {
  }

  lemma RowReflected(img: Image, cx: int, x: int, y: int, lo: int, hi: int)
    ensures RowSum(Reflected(img, cx), cx - 6 - x, y, 4, lo, hi) == Exchanged(RowSum(img, x, y, 4, lo, hi))
  {
    hide Gradients, Reflected, RowSum, Plus, Exchanged;
    GradientsReflected(img, cx, x, y, lo, hi);
    GradientsReflected(img, cx, x + 2, y, lo, hi);
    GradientsReflected(img, cx, x + 4, y, lo, hi);
    GradientsReflected(img, cx, x + 6, y, lo, hi);
    FourOfRow(img, x, y, lo, hi);
    FourOfRow(Reflected(img, cx), cx - 6 - x, y, lo, hi);
    ExchangedFour(Gradients(img, x, y, lo, hi), Gradients(img, x + 2, y, lo, hi), Gradients(img, x + 4, y, lo, hi),
                  Gradients(img, x + 6, y, lo, hi));
  }

  lemma ChequerReflected(img: Image, x: int, u: int, y: int, r: int, lo: int, hi: int)
    ensures ChequerRow(Reflected(img, x + u + 3), u, y, r, lo, hi) == Exchanged(OtherRow(img, x, y, r, lo, hi))
  {
    hide RowSum, Reflected, Exchanged;
    RowReflected(img, x + u + 3, x - 2 + (r + 1) % 2, y + r, lo, hi);
    assert x + u + 3 - 6 - (x - 2 + (r + 1) % 2) == u - 2 + r % 2;
  }

  lemma OtherWindowStep(img: Image, x: int, y: int, first: int, n: nat, lo: int, hi: int)
    ensures OtherWindow(img, x, y, first, n + 1, lo, hi)
         == Plus(OtherWindow(img, x, y, first, n, lo, hi), OtherRow(img, x, y, first + n, lo, hi))
  {
  }

  lemma NoWindows(img: Image, other: Image, x: int, u: int, y: int, first: int, lo: int, hi: int)
    ensures Window(other, u, y, first, 0, lo, hi) == Exchanged(OtherWindow(img, x, y, first, 0, lo, hi))
  {
  }

  lemma {:induction false} WindowReflected(img: Image, x: int, u: int, y: int, first: int, n: nat, lo: int, hi: int)
    ensures Window(Reflected(img, x + u + 3), u, y, first, n, lo, hi)
         == Exchanged(OtherWindow(img, x, y, first, n, lo, hi))
  {
    hide *;
    if n == 0 {
      NoWindows(img, Reflected(img, x + u + 3), x, u, y, first, lo, hi);
    } else {
      WindowReflected(img, x, u, y, first, n - 1, lo, hi);
      ChequerReflected(img, x, u, y, first + n - 1, lo, hi);
      WindowStep(Reflected(img, x + u + 3), u, y, first, n - 1, lo, hi);
      OtherWindowStep(img, x, y, first, n - 1, lo, hi);
      ExchangedPlus(OtherWindow(img, x, y, first, n - 1, lo, hi), OtherRow(img, x, y, first + n - 1, lo, hi));
    }
  }

  lemma ReflectedInRange(img: Image, cx: int, max: int)
    requires InRange(img, max)
    ensures InRange(Reflected(img, cx), max)
  {
  }

  /** The sums of a mirror image are those over the samples the program leaves out, with the diagonals exchanged:
      the block at column l of the reflected picture is the one at column j of the picture. */
  lemma ReflectedSum(b: Block, img: Image, i: nat, j: nat, l: nat)
    requires Aligned(b, i) && InRange(img, 0x3FFF)
    ensures var v, x, u := ViewOf(b, i), b.posX + j, b.posX + l;
            SumOf(b, Reflected(img, x + u + 3), i, l) ==
            Exchanged(OtherWindow(img, x, b.posY + i, v.first, v.rows, v.lo, v.hi))
  {
    hide SumOf, ViewOf, Window, OtherWindow, Reflected, Exchanged, InRange;
    var v, x, u := ViewOf(b, i), b.posX + j, b.posX + l;
    ReflectedInRange(img, x + u + 3, 0x3FFF);
    SumIsWindow(b, Reflected(img, x + u + 3), i, l);
    WindowReflected(img, x, u, b.posY + i, v.first, v.rows, v.lo, v.hi);
  }

  /** A bright line on one diagonal of the block's surroundings. */
  function Line(x: int, y: int): int {
    if x == y && -1 <= x <= 4 then 1000 else 0
  }

  /** The line mirrored within the block. */
  function Mirrored(x: int, y: int): (s: int)
    ensures s == Line(3 - x, y)
  {
    if x + y == 3 && -1 <= y <= 4 then 1000 else 0
  }

  function LineCell(x: int, y: int): Quad {
    var plain := if x != y then 0 else if x == -2 || x == 4 then 2000 else 4000;
    Quad(plain, plain, if plain == 2000 then 2000 else 0, if x == y + 2 || x == y - 2 then 2000 else plain)
  }

  function MirroredCell(x: int, y: int): Quad {
    var plain := if x + y == 2 && -2 < x < 4 then 2000 else if 0 <= x + y <= 4 then 1000 else 0;
    Quad(plain, plain, 0, 0)
  }

  lemma LineCellAt(x: int, y: int)
    requires (x == -2 || x == 0 || x == 2 || x == 4) && (y == -2 || y == 0 || y == 2 || y == 4)
    ensures PlainCell(Line, x, y) == LineCell(x, y)
  {
    hide *;
    if x <= 0 {
      LeftCellAt(x, y);
    } else {
      RightCellAt(x, y);
    }
  }

  lemma LeftCellAt(x: int, y: int)
    requires (x == -2 || x == 0) && (y == -2 || y == 0 || y == 2 || y == 4)
    ensures PlainCell(Line, x, y) == LineCell(x, y)
  {
    TwiceIsExact(Line(x, y));
    TwiceIsExact(Line(x + 1, y + 1));
    hide Twice;
  }

  lemma RightCellAt(x: int, y: int)
    requires (x == 2 || x == 4) && (y == -2 || y == 0 || y == 2 || y == 4)
    ensures PlainCell(Line, x, y) == LineCell(x, y)
  {
    TwiceIsExact(Line(x, y));
    TwiceIsExact(Line(x + 1, y + 1));
    hide Twice;
  }

  lemma MirroredCellAt(x: int, y: int)
    requires (x == -2 || x == 0 || x == 2 || x == 4) && (y == -2 || y == 0 || y == 2 || y == 4)
    ensures PlainCell(Mirrored, x, y) == MirroredCell(x, y)
  {
    hide Line;
    TwiceIsExact(Mirrored(x, y));
    TwiceIsExact(Mirrored(x + 1, y + 1));
    hide Twice;
  }

  lemma PlusFour(a: Quad, b: Quad, c: Quad, d: Quad)
    ensures Plus(a, Plus(Plus(b, c), d))
         == Quad(a.ver + b.ver + c.ver + d.ver, a.hor + b.hor + c.hor + d.hor, a.dig0 + b.dig0 + c.dig0 + d.dig0,
                 a.dig1 + b.dig1 + c.dig1 + d.dig1)
  {
  }

  lemma LineCells(y: int)
    requires y == -2 || y == 0 || y == 2 || y == 4
    ensures Plus(LineCell(-2, y), Plus(Plus(LineCell(0, y), LineCell(2, y)), LineCell(4, y)))
         == if y == -2 || y == 4 then Quad(2000, 2000, 2000, 4000) else Quad(4000, 4000, 0, 8000)
    ensures Plus(MirroredCell(-2, y), Plus(Plus(MirroredCell(0, y), MirroredCell(2, y)), MirroredCell(4, y)))
         == if y == -2 || y == 4 then Quad(2000, 2000, 0, 0) else Quad(4000, 4000, 0, 0)
  {
    hide Plus;
    PlusFour(LineCell(-2, y), LineCell(0, y), LineCell(2, y), LineCell(4, y));
    PlusFour(MirroredCell(-2, y), MirroredCell(0, y), MirroredCell(2, y), MirroredCell(4, y));
  }

  lemma LineRow(y: int)
    requires y == -2 || y == 0 || y == 2 || y == 4
    ensures CellLine(Line, -2, y)
         == if y == -2 || y == 4 then Quad(2000, 2000, 2000, 4000) else Quad(4000, 4000, 0, 8000)
    ensures CellLine(Mirrored, -2, y)
         == if y == -2 || y == 4 then Quad(2000, 2000, 0, 0) else Quad(4000, 4000, 0, 0)
  {
    hide PlainCell, Line, Mirrored, LineCell, MirroredCell, Plus;
    LineCellAt(-2, y);
    LineCellAt(0, y);
    LineCellAt(2, y);
    LineCellAt(4, y);
    MirroredCellAt(-2, y);
    MirroredCellAt(0, y);
    MirroredCellAt(2, y);
    MirroredCellAt(4, y);
    LineCells(y);
  }

  lemma LineSquares()
    ensures Square(Line, 0, 0) == Quad(12000, 12000, 4000, 24000)
    ensures Square(Mirrored, 0, 0) == Quad(12000, 12000, 0, 0)
  {
    hide CellLine, Line, Mirrored;
    LineRow(-2);
    LineRow(0);
    LineRow(2);
    LineRow(4);
  }

  lemma LineSums()
    ensures Aligned(CORNER, 0) && Away(CORNER, 0)
    ensures SumOf(CORNER, Line, 0, 0) == Quad(12000, 12000, 4000, 24000)
    ensures SumOf(CORNER, Mirrored, 0, 0) == Quad(12000, 12000, 0, 0)
  {
    hide SumOf, Square, Line, Mirrored;
    CornerIsAligned();
    SumIsSquare(CORNER, Line, 0, 0);
    SumIsSquare(CORNER, Mirrored, 0, 0);
    LineSquares();
  }

  lemma LineClasses()
    ensures Classify(Quad(12000, 12000, 4000, 24000), 64, 14).classIdx == 14
    ensures Classify(Quad(12000, 12000, 0, 0), 64, 14).classIdx == 4
  {
    Pow2Table();
    assert Pow2(12) == 16 * Pow2(8);
    assert Pow2(14) == 4 * Pow2(12);
  }

  /** A mirror image may fall in another class: every gradient of one diagonal misses the mirrored line. */
  lemma MirrorChangesClass()
    ensures Aligned(CORNER, 0) && Away(CORNER, 0)
    ensures ClassOf(CORNER, Line, 0, 0, 14).classIdx == 14 && ClassOf(CORNER, Mirrored, 0, 0, 14).classIdx == 4
  {
    LineSums();
    LineClasses();
    hide SumOf, Classify, Line, Mirrored;
    AwayClass(CORNER, Line, 0, 0, 14);
    AwayClass(CORNER, Mirrored, 0, 0, 14);
  }
}

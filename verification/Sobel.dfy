/** The Sobel filters of the affine gradient search: derivatives inside the block, and the border taken
    from the nearest inside position, written in place through a stride. */
module Sobel {
  import opened Border

  /** The predicted samples, by column and row. */
  type Image = (int, int) -> int

  function Horizontal(img: Image, x: int, y: int): int {
    img(x + 1, y - 1) - img(x - 1, y - 1) + 2 * img(x + 1, y) - 2 * img(x - 1, y) +
    img(x + 1, y + 1) - img(x - 1, y + 1)
  }

  function Vertical(img: Image, x: int, y: int): int {
    img(x - 1, y + 1) - img(x - 1, y - 1) + 2 * img(x, y + 1) - 2 * img(x, y - 1) +
    img(x + 1, y + 1) - img(x + 1, y - 1)
  }

  // ---- what a derivative is ----

  /** A weight of the Sobel kernel: the direction of the step, doubled on the axis. */
  function Weight(vertical: bool, dx: int, dy: int): int {
    if vertical then dy * (if dx == 0 then 2 else 1) else dx * (if dy == 0 then 2 else 1)
  }

  /** One line of the 3x3 neighbourhood, weighted. */
  function WeightedLine(img: Image, vertical: bool, x: int, y: int, dy: int): int {
    Weight(vertical, -1, dy) * img(x - 1, y + dy) + Weight(vertical, 0, dy) * img(x, y + dy) +
    Weight(vertical, 1, dy) * img(x + 1, y + dy)
  }

  /** The weighted 3x3 neighbourhood. */
  function KernelSum(img: Image, vertical: bool, x: int, y: int): int {
    WeightedLine(img, vertical, x, y, -1) + WeightedLine(img, vertical, x, y, 0) + WeightedLine(img, vertical, x, y, 1)
  }

  lemma FiltersAreKernels(img: Image, x: int, y: int)
    ensures Horizontal(img, x, y) == KernelSum(img, false, x, y) && Vertical(img, x, y) == KernelSum(img, true, x, y)
  {
  }

  /** On a plane both derivatives are eight times the slope. */
  lemma PlaneDerivative(a: int, b: int, c: int, x: int, y: int)
    ensures var plane := (u: int, v: int) => a * u + b * v + c;
            Horizontal(plane, x, y) == 8 * a && Vertical(plane, x, y) == 8 * b
  {
    Steps(a, x);
    Steps(b, y);
  }

  lemma Steps(a: int, x: int)
    ensures a * (x + 1) == a * x + a && a * (x - 1) == a * x - a
  {
  }

  /** u is the inside coordinate nearest to c. */
  ghost predicate NearestInside(u: int, c: int, size: nat) {
    1 <= u <= size - 2 && forall w :: 1 <= w <= size - 2 ==> Distance(u, c) <= Distance(w, c)
  }

  /** (u, v) is the inside position of the block nearest to its cell (x, y). */
  ghost predicate StandsFor(b: Buf, x: int, y: int, u: int, v: int) {
    InPicture(b, x, y) && NearestInside(u, x, b.width) && NearestInside(v, y, b.height)
  }

  function Distance(a: int, b: int): nat {
    if a < b then b - a else a - b
  }

  /** Every cell of the block holds the weighted neighbourhood of the nearest inside position; nothing else is
      written. */
  ghost predicate HoldsDerivatives(b: Buf, was: seq<int>, now: seq<int>, img: Image, vertical: bool) {
    && |now| == |was|
    && (forall x, y :: Place(b, |was|, x, y) && !InPicture(b, x, y) ==> now[Index(b, x, y)] == was[Index(b, x, y)])
    && (forall x, y, u, v :: Place(b, |was|, x, y) && StandsFor(b, x, y, u, v) ==>
          now[Index(b, x, y)] == KernelSum(img, vertical, u, v))
  }

  lemma InnerIsNearest(u: int, c: int, size: nat)
    requires size >= 3
    ensures NearestInside(u, c, size) <==> u == Inner(c, size)
  {
    if NearestInside(u, c, size) {
      assert Distance(u, c) <= Distance(Inner(c, size), c);
    }
  }

  lemma DerivedHolds(b: Buf, was: seq<int>, now: seq<int>, img: Image, vertical: bool)
    requires b.width >= 3 && b.height >= 3 && AllDerived(b, was, now, img, vertical)
    ensures HoldsDerivatives(b, was, now, img, vertical)
  {
    hide Index, Horizontal, Vertical, KernelSum, NearestInside, Inner;
    forall x, y, u, v | Place(b, |was|, x, y) && StandsFor(b, x, y, u, v)
      ensures now[Index(b, x, y)] == KernelSum(img, vertical, u, v)
    {
      InnerIsNearest(u, x, b.width);
      InnerIsNearest(v, y, b.height);
      FiltersAreKernels(img, u, v);
    }
  }

  /** The nearest inside coordinate. */
  function Inner(c: int, size: nat): int {
    if c < 1 then 1 else if c > size - 2 then size - 2 else c
  }

  /** The derivative a cell ends with. */
  function Derivative(img: Image, vertical: bool, b: Buf, x: int, y: int): int {
    if vertical then Vertical(img, Inner(x, b.width), Inner(y, b.height))
    else Horizontal(img, Inner(x, b.width), Inner(y, b.height))
  }

  /** The cells written so far hold their derivative; the rest of the buffer is untouched. */
  ghost predicate Filled(b: Buf, was: seq<int>, now: seq<int>, img: Image, vertical: bool, done: set<(int, int)>) {
    |now| == |was| && forall x, y :: Place(b, |was|, x, y) ==> FilledAt(b, was, now, img, vertical, done, x, y)
  }

  ghost predicate FilledAt(b: Buf, was: seq<int>, now: seq<int>, img: Image, vertical: bool, done: set<(int, int)>,
                           x: int, y: int)
    requires |now| == |was| && Place(b, |was|, x, y)
  {
    now[Index(b, x, y)] == if (x, y) in done then Derivative(img, vertical, b, x, y) else was[Index(b, x, y)]
  }

  lemma FillNext(b: Buf, was: seq<int>, now: seq<int>, img: Image, vertical: bool, done: set<(int, int)>, x: int,
                 y: int)
    requires Filled(b, was, now, img, vertical, done) && Place(b, |was|, x, y)
    ensures Filled(b, was, now[Index(b, x, y) := Derivative(img, vertical, b, x, y)], img, vertical, done + {(x, y)})
  {
    hide Index, Derivative;
    forall u, v | Place(b, |was|, u, v)
      ensures FilledAt(b, was, now[Index(b, x, y) := Derivative(img, vertical, b, x, y)], img, vertical,
                       done + {(x, y)}, u, v)
    {
      assert FilledAt(b, was, now, img, vertical, done, u, v);
      IndexInjective(b, u, v, x, y);
    }
  }

  /** One assignment of a computed derivative. */
  method Put(b: Buf, a: array<int>, at: int, value: int, ghost was: seq<int>, ghost img: Image, ghost vertical: bool,
             ghost done: set<(int, int)>, ghost x: int, ghost y: int)
    returns (ghost more: set<(int, int)>)
    requires Fits(b, |was|) && Filled(b, was, a[..], img, vertical, done) && InPicture(b, x, y)
    requires at == Index(b, x, y) && value == Derivative(img, vertical, b, x, y)
    modifies a
    ensures Filled(b, was, a[..], img, vertical, more) && more == done + {(x, y)}
  {
    hide *;
    CellInside(b, was, a[..], img, vertical, done, x, y);
    FillNext(b, was, a[..], img, vertical, done, x, y);
    ghost var before := a[..];
    a[at] := value;
    assert a[..] == before[at := value];
    more := done + {(x, y)};
  }

  lemma CellInside(b: Buf, was: seq<int>, now: seq<int>, img: Image, vertical: bool, done: set<(int, int)>, x: int,
                   y: int)
    requires Fits(b, |was|) && Filled(b, was, now, img, vertical, done) && InPicture(b, x, y)
    ensures Place(b, |was|, x, y) && 0 <= Index(b, x, y) < |now|
  {
    CellFits(b, |was|, x, y);
  }

  /** One assignment from a cell already written, whose nearest inside position is the same. */
  method Repeat(b: Buf, a: array<int>, at: int, other: int, ghost was: seq<int>, ghost img: Image, ghost vertical: bool,
                ghost done: set<(int, int)>, ghost x: int, ghost y: int, ghost sx: int, ghost sy: int)
    returns (ghost more: set<(int, int)>)
    requires Fits(b, |was|) && Filled(b, was, a[..], img, vertical, done) && InPicture(b, x, y) && InPicture(b, sx, sy)
    requires at == Index(b, x, y) && other == Index(b, sx, sy) && (sx, sy) in done
    requires Inner(sx, b.width) == Inner(x, b.width) && Inner(sy, b.height) == Inner(y, b.height)
    modifies a
    ensures Filled(b, was, a[..], img, vertical, more) && more == done + {(x, y)}
  {
    CellInside(b, was, a[..], img, vertical, done, sx, sy);
    assert FilledAt(b, was, a[..], img, vertical, done, sx, sy);
    assert a[other] == Derivative(img, vertical, b, x, y);
    hide *;
    more := Put(b, a, at, a[other], was, img, vertical, done, x, y);
  }

  // ---- which cells are written ----

  ghost predicate Across(done: set<(int, int)>, y: int, from: int, to: int) {
    forall x :: from <= x < to ==> (x, y) in done
  }

  /** Only cells of the block. */
  ghost predicate Inside(b: Buf, done: set<(int, int)>) {
    forall x, y :: (x, y) in done ==> InPicture(b, x, y)
  }

  ghost predicate Down(done: set<(int, int)>, x: int, from: int, to: int) {
    forall y :: from <= y < to ==> (x, y) in done
  }

  /** The inside positions of a line are their own nearest; a border position has that of its neighbour. */
  lemma InnerFacts(size: nat, c: int)
    requires size >= 3
    ensures 1 <= c < size - 1 ==> Inner(c, size) == c
    ensures Inner(0, size) == 1 == Inner(1, size) && Inner(size - 1, size) == size - 2 == Inner(size - 2, size)
  {
  }

  lemma DerivativeInside(img: Image, vertical: bool, b: Buf, x: int, y: int)
    requires 1 <= x < b.width - 1 && 1 <= y < b.height - 1
    ensures Derivative(img, vertical, b, x, y) == if vertical then Vertical(img, x, y) else Horizontal(img, x, y)
  {
  }

  ghost predicate Ready(b: Buf, was: seq<int>) {
    Fits(b, |was|) && b.width >= 3 && b.height >= 3
  }

  // ---- the horizontal filter: a line inside and its two ends, the corners, the first and last line ----

  method HorizontalLine(b: Buf, a: array<int>, img: Image, y: nat, ghost was: seq<int>, ghost before: set<(int, int)>)
    returns (ghost done: set<(int, int)>)
    requires Ready(b, was) && 1 <= y < b.height - 1 && Filled(b, was, a[..], img, false, before) && Inside(b, before)
    modifies a
    ensures Filled(b, was, a[..], img, false, done) && before <= done && Across(done, y, 0, b.width) && Inside(b, done)
  {
    hide Index, Filled, Derivative, Horizontal, Fits;
    done := before;
    for k := 1 to b.width - 1
      invariant Filled(b, was, a[..], img, false, done) && before <= done && Across(done, y, 1, k) && Inside(b, done)
    {
      DerivativeInside(img, false, b, k, y);
      done := Put(b, a, Index(b, k, y), Horizontal(img, k, y), was, img, false, done, k, y);
    }
    done := Repeat(b, a, Index(b, 0, y), Index(b, 1, y), was, img, false, done, 0, y, 1, y);
    done := Repeat(b, a, Index(b, b.width - 1, y), Index(b, b.width - 2, y), was, img, false, done, b.width - 1, y,
                   b.width - 2, y);
  }

  method Corners(b: Buf, a: array<int>, ghost img: Image, ghost vertical: bool, ghost was: seq<int>,
                 ghost before: set<(int, int)>)
    returns (ghost done: set<(int, int)>)
    requires Ready(b, was) && Filled(b, was, a[..], img, vertical, before)
    requires (1, 1) in before && (b.width - 2, 1) in before
    requires (1, b.height - 2) in before && (b.width - 2, b.height - 2) in before
    modifies a
    ensures Filled(b, was, a[..], img, vertical, done)
    ensures done == before + {(0, 0), (b.width - 1, 0), (0, b.height - 1), (b.width - 1, b.height - 1)}
  {
    var w: int, h: int := b.width, b.height;
    InnerFacts(b.width, 0);
    InnerFacts(b.height, 0);
    hide Index, Filled, Derivative, Fits, Inner;
    done := Repeat(b, a, Index(b, 0, 0), Index(b, 1, 1), was, img, vertical, before, 0, 0, 1, 1);
    done := Repeat(b, a, Index(b, w - 1, 0), Index(b, w - 2, 1), was, img, vertical, done, w - 1, 0, w - 2, 1);
    done := Repeat(b, a, Index(b, 0, h - 1), Index(b, 1, h - 2), was, img, vertical, done, 0, h - 1, 1, h - 2);
    done := Repeat(b, a, Index(b, w - 1, h - 1), Index(b, w - 2, h - 2), was, img, vertical, done, w - 1, h - 1, w - 2,
                   h - 2);
  }

  /** Every cell of the block holds its derivative; nothing else is written. */
  ghost predicate AllDerived(b: Buf, was: seq<int>, now: seq<int>, img: Image, vertical: bool) {
    |now| == |was| && forall x, y :: Place(b, |was|, x, y) ==>
      now[Index(b, x, y)] == if InPicture(b, x, y) then Derivative(img, vertical, b, x, y) else was[Index(b, x, y)]
  }

  lemma AllDone(b: Buf, was: seq<int>, now: seq<int>, img: Image, vertical: bool, done: set<(int, int)>)
    requires Filled(b, was, now, img, vertical, done)
    requires forall x, y :: InPicture(b, x, y) <==> (x, y) in done
    ensures AllDerived(b, was, now, img, vertical)
  {
    hide Index, Derivative;
    forall x, y | Place(b, |was|, x, y)
      ensures now[Index(b, x, y)] ==
        if InPicture(b, x, y) then Derivative(img, vertical, b, x, y) else was[Index(b, x, y)]
    {
      assert FilledAt(b, was, now, img, vertical, done, x, y);
    }
  }

  ghost predicate LinesDone(done: set<(int, int)>, from: int, to: int, width: int) {
    forall x, y :: 0 <= x < width && from <= y < to ==> (x, y) in done
  }

  ghost predicate ColumnsDone(done: set<(int, int)>, from: int, to: int, height: int) {
    forall x, y :: from <= x < to && 0 <= y < height ==> (x, y) in done
  }

  /** The first and last line, from the lines next to them. */
  method FirstAndLastLine(b: Buf, a: array<int>, ghost img: Image, ghost was: seq<int>, ghost before: set<(int, int)>)
    returns (ghost done: set<(int, int)>)
    requires Ready(b, was) && Filled(b, was, a[..], img, false, before) && Inside(b, before)
    requires LinesDone(before, 1, b.height - 1, b.width)
    modifies a
    ensures Filled(b, was, a[..], img, false, done) && Inside(b, done) && before <= done
    ensures Across(done, 0, 1, b.width - 1) && Across(done, b.height - 1, 1, b.width - 1)
  {
    InnerFacts(b.height, 0);
    hide Index, Filled, Derivative, Fits, Inner;
    done := before;
    for j := 1 to b.width - 1
      invariant Filled(b, was, a[..], img, false, done) && Inside(b, done) && before <= done
      invariant Across(done, 0, 1, j) && Across(done, b.height - 1, 1, j)
    {
      done := Repeat(b, a, Index(b, j, 0), Index(b, j, 1), was, img, false, done, j, 0, j, 1);
      done := Repeat(b, a, Index(b, j, b.height - 1), Index(b, j, b.height - 2), was, img, false, done, j,
                     b.height - 1, j, b.height - 2);
    }
  }

  /** The horizontal filter. */
  method HorizontalSobelFilter(b: Buf, a: array<int>, img: Image)
    requires Fits(b, a.Length) && b.width >= 3 && b.height >= 3
    modifies a
    ensures AllDerived(b, old(a[..]), a[..], img, false) && HoldsDerivatives(b, old(a[..]), a[..], img, false)
  {
    ghost var was := a[..];
    ghost var done: set<(int, int)> := {};
    assert Filled(b, was, a[..], img, false, done);
    hide Index, Filled, Derivative, Fits, AllDerived, HoldsDerivatives;
    for j := 1 to b.height - 1
      invariant Filled(b, was, a[..], img, false, done) && Inside(b, done) && LinesDone(done, 1, j, b.width)
    {
      done := HorizontalLine(b, a, img, j, was, done);
    }
    done := Corners(b, a, img, false, was, done);
    done := FirstAndLastLine(b, a, img, was, done);
    AllDone(b, was, a[..], img, false, done);
    DerivedHolds(b, was, a[..], img, false);
  }

  // ---- the vertical filter: a column inside and its two ends, the corners, the first and last column ----

  method VerticalColumn(b: Buf, a: array<int>, img: Image, x: nat, ghost was: seq<int>, ghost before: set<(int, int)>)
    returns (ghost done: set<(int, int)>)
    requires Ready(b, was) && 1 <= x < b.width - 1 && Filled(b, was, a[..], img, true, before) && Inside(b, before)
    modifies a
    ensures Filled(b, was, a[..], img, true, done) && before <= done && Down(done, x, 0, b.height) && Inside(b, done)
  {
    hide Index, Filled, Derivative, Vertical, Fits;
    done := before;
    for j := 1 to b.height - 1
      invariant Filled(b, was, a[..], img, true, done) && before <= done && Down(done, x, 1, j) && Inside(b, done)
    {
      DerivativeInside(img, true, b, x, j);
      done := Put(b, a, Index(b, x, j), Vertical(img, x, j), was, img, true, done, x, j);
    }
    done := Repeat(b, a, Index(b, x, 0), Index(b, x, 1), was, img, true, done, x, 0, x, 1);
    done := Repeat(b, a, Index(b, x, b.height - 1), Index(b, x, b.height - 2), was, img, true, done, x, b.height - 1,
                   x, b.height - 2);
  }

  /** The first and last column, from the columns next to them. */
  method FirstAndLastColumn(b: Buf, a: array<int>, ghost img: Image, ghost was: seq<int>, ghost before: set<(int, int)>)
    returns (ghost done: set<(int, int)>)
    requires Ready(b, was) && Filled(b, was, a[..], img, true, before) && Inside(b, before)
    requires ColumnsDone(before, 1, b.width - 1, b.height)
    modifies a
    ensures Filled(b, was, a[..], img, true, done) && Inside(b, done) && before <= done
    ensures Down(done, 0, 1, b.height - 1) && Down(done, b.width - 1, 1, b.height - 1)
  {
    InnerFacts(b.width, 0);
    hide Index, Filled, Derivative, Fits, Inner;
    done := before;
    for j := 1 to b.height - 1
      invariant Filled(b, was, a[..], img, true, done) && Inside(b, done) && before <= done
      invariant Down(done, 0, 1, j) && Down(done, b.width - 1, 1, j)
    {
      done := Repeat(b, a, Index(b, 0, j), Index(b, 1, j), was, img, true, done, 0, j, 1, j);
      done := Repeat(b, a, Index(b, b.width - 1, j), Index(b, b.width - 2, j), was, img, true, done, b.width - 1, j,
                     b.width - 2, j);
    }
  }

  /** The vertical filter. */
  method VerticalSobelFilter(b: Buf, a: array<int>, img: Image)
    requires Fits(b, a.Length) && b.width >= 3 && b.height >= 3
    modifies a
    ensures AllDerived(b, old(a[..]), a[..], img, true) && HoldsDerivatives(b, old(a[..]), a[..], img, true)
  {
    ghost var was := a[..];
    ghost var done: set<(int, int)> := {};
    assert Filled(b, was, a[..], img, true, done);
    hide Index, Filled, Derivative, Fits, AllDerived, HoldsDerivatives;
    for k := 1 to b.width - 1
      invariant Filled(b, was, a[..], img, true, done) && Inside(b, done) && ColumnsDone(done, 1, k, b.height)
    {
      done := VerticalColumn(b, a, img, k, was, done);
    }
    done := Corners(b, a, img, true, was, done);
    done := FirstAndLastColumn(b, a, img, was, done);
    AllDone(b, was, a[..], img, true, done);
    DerivedHolds(b, was, a[..], img, true);
  }

  /** Derivatives of samples in a range: the weights add up to four on each side. */
  lemma DerivativeBound(img: Image, vertical: bool, b: Buf, x: int, y: int, max: nat)
    requires forall u, v :: 0 <= img(u, v) <= max
    ensures -4 * max <= Derivative(img, vertical, b, x, y) <= 4 * max
  {
    hide Inner;
  }
}

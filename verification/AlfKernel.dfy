/** The filtering loops of the adaptive loop filter: block by block, row by row, in place. */
module AlfKernel {
  import opened AlfClassify
  import opened AlfFilter
  import opened AlfSample

  // ---- the loops ----

  ghost predicate BlockFiltered(k: Kernel, b: Block, img: Image, low: int, high: int, dst: array2<int>, bi: nat,
                                bj: nat)
    requires k.Valid() && b.Valid() && low <= high
    reads dst
  {
    forall y: nat, x: nat :: y < dst.Length0 && x < dst.Length1 && InBlock(b, bi, bj, y, x) ==>
      dst[y, x] == FilteredSample(k, b, img, low, high, bi, bj, y, x)
  }

  /** The blocks before (n, m), row by row, are filtered. */
  ghost predicate Filtered(k: Kernel, b: Block, img: Image, low: int, high: int, dst: array2<int>, n: nat, m: nat)
    requires k.Valid() && b.Valid() && low <= high
    reads dst
  {
    forall bi: nat, bj: nat :: 4 * bi + 4 <= b.height && 4 * bj + 4 <= b.width && (bi < n || (bi == n && bj < m)) ==>
      BlockFiltered(k, b, img, low, high, dst, bi, bj)
  }

  /** Every cell of the area holds what the filter promises of it. */
  ghost predicate AreaFiltered(k: Kernel, b: Block, img: Image, low: int, high: int, dst: array2<int>)
    requires k.Valid() && b.Valid()
    reads dst
  {
    forall y: nat, x: nat :: y < dst.Length0 && x < dst.Length1 && InArea(b, y, x) ==>
      FilteredValue(k, b, img, low, high, y, x, dst[y, x])
  }

  /** Blocks filtered one by one are the area filtered. */
  lemma FilteredArea(k: Kernel, b: Block, img: Image, low: int, high: int, dst: array2<int>)
    requires k.Valid() && b.Valid() && low <= high && Filtered(k, b, img, low, high, dst, b.height / 4, 0)
    ensures AreaFiltered(k, b, img, low, high, dst)
  {
    hide FilteredSample, FilteredValue, Kernel.Valid, InArea, InBlock, Block.Valid;
    forall y: nat, x: nat | y < dst.Length0 && x < dst.Length1 && InArea(b, y, x)
      ensures b.dstY <= y && b.dstX <= x && FilteredValue(k, b, img, low, high, y, x, dst[y, x])
    {
      BlocksCover(b, y, x);
      var bi, bj := (y - b.dstY) / 4, (x - b.dstX) / 4;
      assert BlockFiltered(k, b, img, low, high, dst, bi, bj);
      FilteredMeans(k, b, img, low, high, bi, bj, y, x);
    }
  }

  ghost predicate UntouchedOutside(b: Block, dst: array2<int>, was: (nat, nat) -> int)
    reads dst
  {
    forall y: nat, x: nat :: y < dst.Length0 && x < dst.Length1 && !InArea(b, y, x) ==> dst[y, x] == was(y, x)
  }

  predicate InColumns(b: Block, bj: nat, x: nat) {
    b.dstX + 4 * bj <= x < b.dstX + 4 * bj + 4
  }

  ghost predicate RowFiltered(k: Kernel, b: Block, img: Image, low: int, high: int, dst: array2<int>, bi: nat, bj: nat,
                              y: nat, x0: nat, n: nat)
    requires k.Valid() && b.Valid() && low <= high && b.dstY <= y < dst.Length0 && b.dstX <= x0
    reads dst
  {
    forall x: nat :: x < dst.Length1 && x0 <= x < x0 + n ==>
      dst[y, x] == FilteredSample(k, b, img, low, high, bi, bj, y, x)
  }

  /** One row of a block: the tap rows are chosen once, then four samples are written. */
  method FilterRow(k: Kernel, b: Block, img: Image, low: int, high: int, dst: array2<int>, bi: nat, bj: nat, y: nat)
    requires k.Valid() && b.Valid() && low <= high && b.dstY <= y < dst.Length0
    requires b.dstX + 4 * bj + 4 <= dst.Length1
    modifies dst
    ensures RowFiltered(k, b, img, low, high, dst, bi, bj, y, b.dstX + 4 * bj, 4)
    ensures forall q: nat, x: nat :: q < dst.Length0 && x < dst.Length1 && !(q == y && InColumns(b, bj, x)) ==>
      dst[q, x] == old(dst[q, x])
  {
    PositiveHeight(b);
    hide *;
    var x0 := b.dstX + 4 * bj;
    var yVb := y % b.ctuHeight;
    var r := Substituted(b.posY + (y - b.dstY), yVb, b.vbPos, k.Chroma?);
    var near := NearBoundary(yVb, b.vbPos);
    NoneFiltered(k, b, img, low, high, dst, bi, bj, y, x0);
    for jj := 0 to 4
      invariant RowFiltered(k, b, img, low, high, dst, bi, bj, y, x0, jj)
      invariant forall q: nat, x: nat :: q < dst.Length0 && x < dst.Length1 && !(q == y && InColumns(b, bj, x)) ==>
        dst[q, x] == old(dst[q, x])
    {
      FilterColumn(k, b, img, low, high, dst, bi, bj, y, jj, r, near);
    }
  }

  /** The next sample of the row; only its columns change. */
  method FilterColumn(k: Kernel, b: Block, img: Image, low: int, high: int, dst: array2<int>, bi: nat, bj: nat, y: nat,
                      jj: nat, r: Rows, near: bool)
    requires k.Valid() && b.Valid() && low <= high && b.dstY <= y < dst.Length0
    requires b.dstX + 4 * bj + 4 <= dst.Length1 && jj < 4
    requires r == Substituted(b.posY + (y - b.dstY), y % b.ctuHeight, b.vbPos, k.Chroma?)
    requires near == NearBoundary(y % b.ctuHeight, b.vbPos)
    requires RowFiltered(k, b, img, low, high, dst, bi, bj, y, b.dstX + 4 * bj, jj)
    modifies dst
    ensures RowFiltered(k, b, img, low, high, dst, bi, bj, y, b.dstX + 4 * bj, jj + 1)
    ensures forall q: nat, x: nat :: q < dst.Length0 && x < dst.Length1 && !(q == y && InColumns(b, bj, x)) ==>
      dst[q, x] == old(dst[q, x])
  {
    hide *;
    var x0 := b.dstX + 4 * bj;
    var v := FilterOne(k, b, img, low, high, bi, bj, y, x0 + jj, r, near);
    ColumnOf(b, bj, jj);
    WriteNext(k, b, img, low, high, dst, bi, bj, y, x0, jj, v);
  }

  lemma NoneFiltered(k: Kernel, b: Block, img: Image, low: int, high: int, dst: array2<int>, bi: nat, bj: nat,
                     y: nat, x0: nat)
    requires k.Valid() && b.Valid() && low <= high && b.dstY <= y < dst.Length0 && b.dstX <= x0
    ensures RowFiltered(k, b, img, low, high, dst, bi, bj, y, x0, 0)
  {
  }

  lemma ColumnOf(b: Block, bj: nat, jj: nat)
    requires jj < 4
    ensures InColumns(b, bj, b.dstX + 4 * bj + jj)
  {
  }

  /** One sample, given the rows chosen for its row. */
  method FilterOne(k: Kernel, b: Block, img: Image, low: int, high: int, bi: nat, bj: nat, y: nat, x: nat, r: Rows,
                   near: bool)
    returns (v: int)
    requires k.Valid() && b.Valid() && low <= high && b.dstY <= y && b.dstX <= x
    requires r == Substituted(b.posY + (y - b.dstY), y % b.ctuHeight, b.vbPos, k.Chroma?)
    requires near == NearBoundary(y % b.ctuHeight, b.vbPos)
    ensures v == FilteredSample(k, b, img, low, high, bi, bj, y, x)
  {
    hide Substituted, TapSum, NearBoundary, Finish;
    var srcX := b.posX + (x - b.dstX);
    v := Finish(TapSum(k, b, img, bi, bj, srcX, r), near, img(srcX, r.r0), low, high);
  }

  method WriteNext(ghost k: Kernel, b: Block, ghost img: Image, ghost low: int, ghost high: int, dst: array2<int>,
                   ghost bi: nat, ghost bj: nat, y: nat, x0: nat, jj: nat, v: int)
    requires k.Valid() && b.Valid() && low <= high && b.dstY <= y < dst.Length0 && b.dstX <= x0
    requires x0 + jj < dst.Length1 && v == FilteredSample(k, b, img, low, high, bi, bj, y, x0 + jj)
    requires RowFiltered(k, b, img, low, high, dst, bi, bj, y, x0, jj)
    modifies dst
    ensures RowFiltered(k, b, img, low, high, dst, bi, bj, y, x0, jj + 1)
    ensures forall q: nat, x: nat :: q < dst.Length0 && x < dst.Length1 && !(q == y && x == x0 + jj) ==>
      dst[q, x] == old(dst[q, x])
  {
    hide FilteredSample, Kernel.Valid;
    dst[y, x0 + jj] := v;
  }

  ghost predicate RowsFiltered(k: Kernel, b: Block, img: Image, low: int, high: int, dst: array2<int>, bi: nat, bj: nat,
                               n: nat)
    requires k.Valid() && b.Valid() && low <= high
    reads dst
  {
    forall y: nat, x: nat :: y < dst.Length0 && x < dst.Length1 && InBlock(b, bi, bj, y,
                                                                           x) && y < b.dstY + 4 * bi + n ==>
      dst[y, x] == FilteredSample(k, b, img, low, high, bi, bj, y, x)
  }

  method FilterBlock(k: Kernel, b: Block, img: Image, low: int, high: int, dst: array2<int>, bi: nat, bj: nat)
    requires k.Valid() && b.Valid() && low <= high
    requires b.dstY + 4 * bi + 4 <= dst.Length0 && b.dstX + 4 * bj + 4 <= dst.Length1
    modifies dst
    ensures BlockFiltered(k, b, img, low, high, dst, bi, bj)
    ensures forall y: nat, x: nat :: y < dst.Length0 && x < dst.Length1 && !InBlock(b, bi, bj, y, x) ==>
      dst[y, x] == old(dst[y, x])
  {
    hide FilteredSample, Kernel.Valid;
    for ii := 0 to 4
      invariant RowsFiltered(k, b, img, low, high, dst, bi, bj, ii)
      invariant forall y: nat, x: nat :: y < dst.Length0 && x < dst.Length1 && !InBlock(b, bi, bj, y, x) ==>
        dst[y, x] == old(dst[y, x])
    {
      FilterRow(k, b, img, low, high, dst, bi, bj, b.dstY + 4 * bi + ii);
    }
  }

  method FilterNext(k: Kernel, b: Block, img: Image, low: int, high: int, dst: array2<int>, n: nat, m: nat,
                    ghost was: (nat, nat) -> int)
    requires k.Valid() && b.Valid() && low <= high
    requires 4 * n + 4 <= b.height && 4 * m + 4 <= b.width
    requires b.dstY + b.height <= dst.Length0 && b.dstX + b.width <= dst.Length1
    requires Filtered(k, b, img, low, high, dst, n, m) && UntouchedOutside(b, dst, was)
    modifies dst
    ensures Filtered(k, b, img, low, high, dst, n, m + 1) && UntouchedOutside(b, dst, was)
  {
    hide FilteredSample, Kernel.Valid;
    FilterBlock(k, b, img, low, high, dst, n, m);
    forall bi: nat, bj: nat | 4 * bi + 4 <= b.height && 4 * bj + 4 <= b.width && (bi < n || (bi == n && bj < m))
      ensures BlockFiltered(k, b, img, low, high, dst, bi, bj)
    {
      assert old(BlockFiltered(k, b, img, low, high, dst, bi, bj));
      assert forall y: nat, x: nat :: InBlock(b, bi, bj, y, x) ==> !InBlock(b, n, m, y, x);
    }
  }

  /** The whole kernel: every sample of the area is filtered from the source, nothing else changes. */
  method FilterBlk(k: Kernel, b: Block, img: Image, low: int, high: int, dst: array2<int>, ghost was: (nat, nat) -> int)
    requires k.Valid() && b.Valid() && low <= high
    requires b.dstY + b.height <= dst.Length0 && b.dstX + b.width <= dst.Length1
    requires UntouchedOutside(b, dst, was)
    modifies dst
    ensures Filtered(k, b, img, low, high, dst, b.height / 4, 0) && AreaFiltered(k, b, img, low, high, dst)
    ensures UntouchedOutside(b, dst, was)
  {
    var blocksY, blocksX := b.height / 4, b.width / 4;
    assert b.height == 4 * blocksY && b.width == 4 * blocksX;
    assert Filtered(k, b, img, low, high, dst, 0, 0);
    hide *;
    for n := 0 to blocksY
      invariant Filtered(k, b, img, low, high, dst, n, 0) && UntouchedOutside(b, dst, was)
    {
      for m := 0 to blocksX
        invariant Filtered(k, b, img, low, high, dst, n, m) && UntouchedOutside(b, dst, was)
      {
        FilterNext(k, b, img, low, high, dst, n, m, was);
      }
      NextFilteredRow(k, b, img, low, high, dst, n, blocksX);
    }
    FilteredArea(k, b, img, low, high, dst);
  }

  lemma NextFilteredRow(k: Kernel, b: Block, img: Image, low: int, high: int, dst: array2<int>, n: nat, m: nat)
    requires k.Valid() && b.Valid() && low <= high && b.width == 4 * m && Filtered(k, b, img, low, high, dst, n, m)
    ensures Filtered(k, b, img, low, high, dst, n + 1, 0)
  {
    hide BlockFiltered;
  }
}

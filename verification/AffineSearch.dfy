/** One step of the affine search: the derivatives come from the Sobel filters, and the equations
    accumulated from them stay in range. */
module AffineSearch {
  import Affine
  import Border
  import Sobel

  /** Samples of at most 12 bits. */
  ghost predicate TwelveBits(img: Sobel.Image) {
    forall x, y :: 0 <= img(x, y) <= 4095
  }

  /** The block the filters write: no margins, from the start of the buffer. */
  function BlockOf(i: Affine.Input): Border.Buf {
    Border.Buf(0, i.stride, i.width, i.height, 0, 0)
  }

  /** The filters have filled both derivative buffers, and the residual is original minus prediction. */
  ghost predicate Prepared(i: Affine.Input, orig: Sobel.Image, pred: Sobel.Image, was0: seq<int>, was1: seq<int>) {
    && i.Valid() && i.width <= i.stride
    && Sobel.AllDerived(BlockOf(i), was0, i.d0, pred, false) && Sobel.AllDerived(BlockOf(i), was1, i.d1, pred, true)
    && forall j: nat, k: nat :: j < i.height && k < i.width ==>
      Affine.PointAt(i, j, k).s.residue == orig(k, j) - pred(k, j)
  }

  lemma BlockFits(i: Affine.Input, n: nat)
    requires 0 < i.width <= i.stride && 0 < i.height && (i.height - 1) * i.stride + i.width <= n
    ensures Border.Fits(BlockOf(i), n)
  {
  }

  lemma DerivativesAt(i: Affine.Input, orig: Sobel.Image, pred: Sobel.Image, was0: seq<int>, was1: seq<int>, j: nat,
                      k: nat)
    requires Prepared(i, orig, pred, was0, was1) && j < i.height && k < i.width
    ensures Affine.PointAt(i, j, k).s.g0 == Sobel.Derivative(pred, false, BlockOf(i), k, j)
    ensures Affine.PointAt(i, j, k).s.g1 == Sobel.Derivative(pred, true, BlockOf(i), k, j)
  {
    hide Sobel.Derivative, Border.Fits;
    BlockFits(i, |i.d0|);
    BlockFits(i, |i.d1|);
    Border.CellFits(BlockOf(i), |i.d0|, k, j);
    Border.CellFits(BlockOf(i), |i.d1|, k, j);
    Affine.InBuffers(i, j, k);
  }

  lemma SampleSmall(i: Affine.Input, orig: Sobel.Image, pred: Sobel.Image, was0: seq<int>, was1: seq<int>, j: nat,
                    k: nat)
    requires Prepared(i, orig, pred, was0, was1) && j < i.height && k < i.width && TwelveBits(orig) && TwelveBits(pred)
    ensures Affine.SmallSample(Affine.PointAt(i, j, k).s)
  {
    DerivativesAt(i, orig, pred, was0, was1, j, k);
    hide Sobel.Derivative, Sobel.AllDerived;
    Sobel.DerivativeBound(pred, false, BlockOf(i), k, j, 4095);
    Sobel.DerivativeBound(pred, true, BlockOf(i), k, j, 4095);
    assert Affine.PointAt(i, j, k).s.residue == orig(k, j) - pred(k, j);
    assert 0 <= orig(k, j) <= 4095 && 0 <= pred(k, j) <= 4095;
  }

  /** For blocks of at most 128x128 samples of at most 12 bits no partial sum leaves the 64-bit range. */
  lemma SearchSumsFit(i: Affine.Input, orig: Sobel.Image, pred: Sobel.Image, was0: seq<int>, was1: seq<int>, six: bool,
                      j: nat, k: nat, a: nat, b: nat)
    requires Prepared(i, orig, pred, was0, was1) && TwelveBits(orig) && TwelveBits(pred)
    requires i.width <= 128 && i.height <= 128 && j <= i.height && k <= i.width && (j == i.height ==> k == 0)
    requires a < (if six then 6 else 4) && b < (if six then 6 else 4)
    ensures Affine.AtMost(Affine.Entry(six, Affine.Points(i, j, k), a, b), 0x7FFF_FFFF_FFFF_FFFF)
    ensures Affine.AtMost(Affine.TotalMoment(six, Affine.Points(i, j, k), a), 0x7FFF_FFFF_FFFF_FFFF)
  {
    hide Affine.Points, Affine.Entry, Affine.TotalMoment, Affine.SmallSample, Affine.PointAt, TwelveBits;
    forall y: nat, x: nat | y < i.height && x < i.width
      ensures Affine.SmallSample(Affine.PointAt(i, y, x).s)
    {
      SampleSmall(i, orig, pred, was0, was1, y, x);
    }
    Affine.SumsFit(i, six, j, k, a, b);
  }
}

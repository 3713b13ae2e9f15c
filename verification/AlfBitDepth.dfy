/** Up to which bit depth the product comparison of the classification is exact. */
module AlfBitDepth {
  import opened AlfClassify
  import opened AlfWindow
  import opened Bits

  /** The largest sample of 11 bits. */
  const PEAK := 2047

  /** A picture of 11 bits, the same in every 4x4 square: a diagonal of three samples. */
  function Stripe(x: int, y: int): (s: int)
    ensures 0 <= s <= PEAK
  {
    if x % 4 + y % 4 == 2 then PEAK else 0
  }

  function StripeCell(c: int, r: int): Quad {
    if c == 2 && r == 2 then Quad(0, 0, PEAK, 2 * PEAK)
    else if c == 0 && r == 0 then Quad(2 * PEAK, 2 * PEAK, 3 * PEAK, 0) else Quad(2 * PEAK, 2 * PEAK, 4 * PEAK, PEAK)
  }

  lemma Residues(x: int)
    requires x % 4 == 0 || x % 4 == 2
    ensures (x - 1) % 4 == if x % 4 == 0 then 3 else 1
    ensures (x + 1) % 4 == if x % 4 == 0 then 1 else 3
    ensures (x + 2) % 4 == if x % 4 == 0 then 2 else 0
  {
  }

  lemma StripeCellAt(x: int, y: int)
    requires (x % 4 == 0 || x % 4 == 2) && (y % 4 == 0 || y % 4 == 2)
    ensures CellAt(Stripe, x, y, y - 1, y + 2) == StripeCell(x % 4, y % 4)
  {
    Residues(x);
    Residues(y);
    TwiceIsExact(Stripe(x, y));
    TwiceIsExact(Stripe(x + 1, y + 1));
    hide Twice;
    if x % 4 == 0 {
      if y % 4 == 0 {
      } else {
      }
    }
  }

  /** A block at the picture's origin, far from the virtual boundary. */
  const CORNER := Block(0, 0, 0, 0, 4, 4, 128, 64)

  lemma StripeFour(i: nat)
    requires i == 0 || i == 2 || i == 4 || i == 6
    ensures CORNER.Valid()
    ensures FourCells(CORNER, Stripe, i, 0)
         == if i % 4 == 0 then Quad(4 * PEAK, 4 * PEAK, 10 * PEAK, 6 * PEAK)
            else Quad(8 * PEAK, 8 * PEAK, 14 * PEAK, 2 * PEAK)
  {
    hide CellAt, Stripe;
    StripeCellAt(-2, i - 2);
    StripeCellAt(0, i - 2);
    StripeCellAt(2, i - 2);
    StripeCellAt(4, i - 2);
  }

  /** The sums of that picture: one diagonal is three times as strong as the other. */
  lemma StripeSum()
    ensures Aligned(CORNER, 0) && SumOf(CORNER, Stripe, 0, 0) == Quad(49128, 49128, 98256, 32752)
  {
    hide Stripe, FourCells;
    StripeFour(0);
    StripeFour(2);
    StripeFour(4);
    StripeFour(6);
  }

  // ---- classes by true ratios ----

  /** The class at an activity level, given which pair of directions is the stronger. */
  function ClassBy(s: Quad, level: nat, diagonal: bool): nat
    requires NonNegative(s)
  {
    var strength, first := if diagonal then Strength(Greater(s.dig0, s.dig1), Lesser(s.dig0, s.dig1))
                           else Strength(Greater(s.ver, s.hor), Lesser(s.ver, s.hor)), if diagonal then 0 else 2;
    if strength == 0 then level else level + (first + strength) * 5
  }

  /** The level of activity of a block: `factor` is 64, or 96 for a window of three quarters. */
  function Level(s: Quad, factor: nat, shift: nat): (level: nat)
    requires NonNegative(s)
    ensures level < 5
  {
    THRESHOLDS[Clip3(0, MAX_ACTIVITY, ((s.ver + s.hor) * factor) / Pow2(shift))]
  }

  function FactorOf(b: Block, i: nat): nat
    requires b.Valid()
  {
    var y := (i + b.dstY) % b.ctuHeight;
    if y == b.vbPos - 4 || y == b.vbPos then 96 else 64
  }

  lemma DecideIsClassBy(s: Quad, level: nat)
    requires NonNegative(s) && level < 5
    ensures Decide(s, level).classIdx == ClassBy(s, level, FoundDiagonal(s))
  {
    hide DiagonalWins, Strength;
  }

  lemma ClassOfIsClassBy(b: Block, img: Image, i: nat, j: nat, shift: nat)
    requires b.Valid()
    ensures var s := SumOf(b, img, i, j);
            ClassOf(b, img, i, j, shift).classIdx == ClassBy(s, Level(s, FactorOf(b, i), shift), FoundDiagonal(s))
  {
    hide SumOf, Decide, FoundDiagonal, ClassBy, Pow2, Clip3;
    var s := SumOf(b, img, i, j);
    DecideIsClassBy(s, Level(s, FactorOf(b, i), shift));
  }

  /** The class is the one the true ratios give. */
  ghost predicate TrueClass(b: Block, img: Image, i: nat, j: nat, shift: nat)
    requires b.Valid()
  {
    var s := SumOf(b, img, i, j);
    ClassOf(b, img, i, j, shift).classIdx == ClassBy(s, Level(s, FactorOf(b, i), shift), TrulyDiagonal(s))
  }

  lemma StripeDecision(level: nat)
    ensures var s := Quad(49128, 49128, 98256, 32752);
            && !DecidedExactly(s) && !FoundDiagonal(s) && TrulyDiagonal(s)
            && ClassBy(s, level, false) != ClassBy(s, level, true)
  {
  }

  lemma Misclassified(b: Block, img: Image, i: nat, j: nat, shift: nat)
    requires b.Valid() && SumOf(b, img, i, j) == Quad(49128, 49128, 98256, 32752)
    ensures !DecidedExactly(SumOf(b, img, i, j)) && !TrueClass(b, img, i, j, shift)
  {
    hide SumOf, ClassOf, Level, FactorOf, ClassBy, DecidedExactly, FoundDiagonal, TrulyDiagonal;
    var s := SumOf(b, img, i, j);
    ClassOfIsClassBy(b, img, i, j, shift);
    StripeDecision(Level(s, FactorOf(b, i), shift));
  }

  /** With 11 bits the products wrap: the wrong pair of directions is chosen, and the block gets the wrong class. */
  lemma ElevenBitsWrap(shift: nat)
    ensures Aligned(CORNER, 0) && InRange(Stripe, PEAK) && !DecidedExactly(SumOf(CORNER, Stripe, 0, 0))
    ensures !TrueClass(CORNER, Stripe, 0, 0, shift)
  {
    StripeSum();
    StripeInRange();
    hide *;
    CornerIsAligned();
    Misclassified(CORNER, Stripe, 0, 0, shift);
  }

  lemma StripeInRange()
    ensures InRange(Stripe, PEAK)
  {
  }

  lemma CornerIsAligned()
    ensures Aligned(CORNER, 0) && CORNER.Valid()
  {
  }

  /** In every picture of this bit depth the stronger pair of every block is chosen by the true ratios. */
  ghost predicate AlwaysExact(bitDepth: nat) {
    forall b: Block, img: Image, i: nat, j: nat :: Aligned(b, i) && InRange(img, Pow2(bitDepth) - 1) ==>
      DecidedExactly(SumOf(b, img, i, j))
  }

  /** In every picture of this bit depth every block gets the class of the true ratios. */
  ghost predicate AlwaysTrueClass(bitDepth: nat, shift: nat) {
    forall b: Block, img: Image, i: nat, j: nat :: Aligned(b, i) && InRange(img, Pow2(bitDepth) - 1) ==>
      TrueClass(b, img, i, j, shift)
  }

  lemma InWiderRange(img: Image, low: int, high: int)
    requires InRange(img, low) && low <= high
    ensures InRange(img, high)
  {
  }

  lemma PeakOfDepth(bitDepth: nat)
    ensures bitDepth <= 10 ==> Pow2(bitDepth) - 1 <= 1023
    ensures bitDepth > 10 ==> PEAK <= Pow2(bitDepth) - 1
  {
    Pow2Table();
    assert Pow2(10) == 4 * Pow2(8);
    Pow2Succ(10);
    if bitDepth <= 10 {
      Pow2Mono(bitDepth, 10);
    } else {
      Pow2Mono(11, bitDepth);
    }
  }

  lemma TenBitsExact(b: Block, img: Image, i: nat, j: nat, bitDepth: nat, shift: nat)
    requires Aligned(b, i) && InRange(img, Pow2(bitDepth) - 1) && bitDepth <= 10
    ensures DecidedExactly(SumOf(b, img, i, j)) && TrueClass(b, img, i, j, shift)
  {
    PeakOfDepth(bitDepth);
    hide Pow2, SumOf, InRange, ClassOf, Level, ClassBy, FoundDiagonal, TrulyDiagonal;
    InWiderRange(img, Pow2(bitDepth) - 1, 1023);
    TenBitSumsFit(b, img, i, j);
    ClassOfIsClassBy(b, img, i, j, shift);
  }

  /** The comparison is exact for all pictures of a bit depth, and every class that of the true ratios, if and
      only if that depth is at most ten. */
  lemma ExactUpToTenBits(bitDepth: nat, shift: nat)
    ensures AlwaysExact(bitDepth) <==> bitDepth <= 10
    ensures AlwaysTrueClass(bitDepth, shift) <==> bitDepth <= 10
  {
    PeakOfDepth(bitDepth);
    hide Pow2, SumOf, DecidedExactly, InRange, Stripe, TrueClass;
    if bitDepth <= 10 {
      forall b: Block, img: Image, i: nat, j: nat | Aligned(b, i) && InRange(img, Pow2(bitDepth) - 1)
        ensures DecidedExactly(SumOf(b, img, i, j)) && TrueClass(b, img, i, j, shift)
      {
        TenBitsExact(b, img, i, j, bitDepth, shift);
      }
    } else {
      ElevenBitsWrap(shift);
      InWiderRange(Stripe, PEAK, Pow2(bitDepth) - 1);
      assert !DecidedExactly(SumOf(CORNER, Stripe, 0, 0));
      assert !TrueClass(CORNER, Stripe, 0, 0, shift);
    }
  }
}

/** The clipped differences of a filter tap in the 16-bit sample type. */
module AlfClip {
  import opened AlfClassify
  import opened AlfFilter
  import opened Bits

  lemma PelIsExact(x: int)
    ensures -0x8000 <= x < 0x8000 ==> Pel(x) == x
  {
  }

  /** The clip as the template computes it, whatever the order of its bounds. */
  function Bound(low: int, high: int, x: int): int {
    var raised := if x < low then low else x;
    if raised > high then high else raised
  }

  /** The program's computation: the clip and its negative, the differences and the sum are all samples. */
  function NarrowClipAlf(clip: int, ref: int, val0: int, val1: int): int {
    var c := Pel(clip);
    Pel(Bound(Pel(-c), c, Pel(val0 - ref)) + Bound(Pel(-c), c, Pel(val1 - ref)))
  }

  ghost predicate InDepth(max: int, clip: int, ref: int, val0: int, val1: int) {
    0 <= clip <= max && 0 <= ref < max && 0 <= val0 < max && 0 <= val1 < max
  }

  /** Clips up to 2^bitDepth, the largest the filter uses, and samples of that depth never leave the type. */
  ghost predicate ClipsExactly(bitDepth: nat) {
    forall clip, ref, val0, val1 :: InDepth(Pow2(bitDepth), clip, ref, val0, val1) ==>
      NarrowClipAlf(clip, ref, val0, val1) == ClipAlf(clip, ref, val0, val1)
  }

  /** With its bounds in order the template is the clip, and the result lies between zero and the value. */
  lemma BoundIsClip(c: int, x: int)
    requires c >= 0
    ensures Bound(-c, c, x) == Clip3(-c, c, x)
    ensures if x >= 0 then 0 <= Bound(-c, c, x) <= x else x <= Bound(-c, c, x) <= 0
  {
  }

  lemma FourteenBits(clip: int, ref: int, val0: int, val1: int)
    requires InDepth(0x4000, clip, ref, val0, val1)
    ensures NarrowClipAlf(clip, ref, val0, val1) == ClipAlf(clip, ref, val0, val1)
  {
    PelIsExact(clip);
    PelIsExact(-clip);
    PelIsExact(val0 - ref);
    PelIsExact(val1 - ref);
    hide Pel, Bound, Clip3;
    BoundIsClip(clip, val0 - ref);
    BoundIsClip(clip, val1 - ref);
    PelIsExact(ClipAlf(clip, ref, val0, val1));
  }

  lemma PelWraps()
    ensures Pel(0x8000) == -0x8000 && Pel(-0x1_0000) == 0
  {
  }

  /** The clip 2^15 turns into -2^15, both differences are clipped to that, and their sum wraps to 0. */
  lemma FifteenBits()
    ensures NarrowClipAlf(0x8000, 0, 5, 0) == 0 && ClipAlf(0x8000, 0, 5, 0) == 5
  {
    PelWraps();
    PelIsExact(5);
    PelIsExact(0);
    hide Pel;
  }

  lemma Depths(bitDepth: nat)
    ensures bitDepth <= 14 ==> Pow2(bitDepth) <= 0x4000
    ensures bitDepth > 14 ==> 0x8000 <= Pow2(bitDepth)
  {
    Pow2Table();
    assert Pow2(12) == 16 * Pow2(8);
    assert Pow2(14) == 4 * Pow2(12);
    Pow2Succ(14);
    if bitDepth <= 14 {
      Pow2Mono(bitDepth, 14);
    } else {
      Pow2Mono(15, bitDepth);
    }
  }

  /** The narrow type does not change a tap exactly up to 14 bits. */
  lemma ClipExactUpTo14(bitDepth: nat)
    ensures ClipsExactly(bitDepth) <==> bitDepth <= 14
  {
    Depths(bitDepth);
    hide Pow2, NarrowClipAlf, ClipAlf;
    if bitDepth <= 14 {
      forall clip, ref, val0, val1 | InDepth(Pow2(bitDepth), clip, ref, val0, val1)
        ensures NarrowClipAlf(clip, ref, val0, val1) == ClipAlf(clip, ref, val0, val1)
      {
        FourteenBits(clip, ref, val0, val1);
      }
    } else {
      FifteenBits();
      assert InDepth(Pow2(bitDepth), 0x8000, 0, 5, 0);
    }
  }
}

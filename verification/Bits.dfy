/** Bit strings, and the C++ operators on 32-bit words that the bitstream classes use.
    A word is a natural number below 2^32; what each operator does is stated on its 32 bits. */
module Bits {

  type Byte = b: int | 0 <= b < 256

  const WORD := 0x1_0000_0000

  type Word = w: int | 0 <= w < WORD

  function Pow2(n: nat): (p: nat)
    ensures p >= 1
  {
    if n == 0 then 1 else 2 * Pow2(n - 1)
  }

  /** A value stored in the 16-bit sample type: the one of its range that differs by whole wraps. */
  function Pel(v: int): (p: int)
    ensures -0x8000 <= p < 0x8000 && (v - p) % 0x1_0000 == 0
  {
    var w := v % 0x1_0000;
    if w >= 0x8000 then w - 0x1_0000 else w
  }

  // ---- bit strings ----

  /** The n low bits of v, most significant first. */
  function ToBits(v: nat, n: nat): (s: seq<bool>)
    ensures |s| == n
  {
    if n == 0 then [] else ToBits(v / 2, n - 1) + [v % 2 == 1]
  }

  function FromBits(s: seq<bool>): (v: nat)
    ensures v < Pow2(|s|)
  {
    if s == [] then 0 else 2 * FromBits(s[..|s| - 1]) + (if s[|s| - 1] then 1 else 0)
  }

  function BytesBits(bytes: seq<Byte>): (s: seq<bool>)
    ensures |s| == 8 * |bytes|
  {
    if bytes == [] then [] else ToBits(bytes[0], 8) + BytesBits(bytes[1..])
  }

  function Zeros(n: nat): (s: seq<bool>)
    ensures |s| == n
    ensures forall i :: 0 <= i < n ==> !s[i]
  {
    seq(n, _ => false)
  }

  // ---- operators on words ----

  /** `x << n` on uint32_t, one place at a time; shifting by 32 leaves 0. */
  function Shl(x: Word, n: nat): Word
    decreases n
  {
    if n == 0 then x else Shl((2 * x) % WORD, n - 1)
  }

  /** `x >> n` on uint32_t, one place at a time. */
  function Shr(x: Word, n: nat): Word
    decreases n
  {
    if n == 0 then x else Shr(x / 2, n - 1)
  }

  function Not(x: Word): Word {
    WORD - 1 - x
  }

  function And(a: Word, b: Word): Word {
    var s, t := ToBits(a, 32), ToBits(b, 32);
    Pow2Word();
    FromBits(seq(32, i requires 0 <= i < 32 => s[i] && t[i]))
  }

  function Or(a: Word, b: Word): Word {
    var s, t := ToBits(a, 32), ToBits(b, 32);
    Pow2Word();
    FromBits(seq(32, i requires 0 <= i < 32 => s[i] || t[i]))
  }

  /** Conversion of a word to uint8_t. */
  function ToByte(x: Word): Byte {
    x % 256
  }

  // ---- powers of two ----

  lemma Pow2Table()
    ensures Pow2(0) == 1 && Pow2(1) == 2 && Pow2(2) == 4 && Pow2(3) == 8
    ensures Pow2(4) == 16 && Pow2(5) == 32 && Pow2(6) == 64 && Pow2(7) == 128 && Pow2(8) == 256
  {
    assert Pow2(5) == 32;
  }

  lemma Pow2Word()
    ensures Pow2(31) == 0x8000_0000 && Pow2(32) == WORD
  {
    Pow2Table();
    assert Pow2(12) == 16 * Pow2(8);
    assert Pow2(16) == 16 * Pow2(12);
    assert Pow2(20) == 16 * Pow2(16);
    assert Pow2(24) == 16 * Pow2(20);
    assert Pow2(28) == 16 * Pow2(24);
  }

  lemma Pow2Succ(n: nat)
    ensures Pow2(n + 1) == 2 * Pow2(n)
  {
  }

  lemma {:induction false} Pow2Mono(a: nat, b: nat)
    requires a <= b
    ensures Pow2(a) <= Pow2(b)
  {
    if a < b {
      Pow2Mono(a, b - 1);
    }
  }

  // ---- numbers and their bits ----

  lemma ToBitsStep(v: nat, n: nat)
    requires n > 0
    ensures ToBits(v, n) == ToBits(v / 2, n - 1) + [v % 2 == 1]
  {
  }

  lemma {:induction false} FromToBits(v: nat, n: nat)
    requires v < Pow2(n)
    ensures FromBits(ToBits(v, n)) == v
  {
    if n > 0 {
      FromToBits(v / 2, n - 1);
      assert ToBits(v, n)[..n - 1] == ToBits(v / 2, n - 1);
    }
  }

  lemma {:induction false} ToFromBits(s: seq<bool>)
    ensures ToBits(FromBits(s), |s|) == s
  {
    if s != [] {
      ToFromBits(s[..|s| - 1]);
    }
  }

  lemma {:induction false} ToBitsZero(n: nat)
    ensures ToBits(0, n) == Zeros(n)
  {
    if n > 0 {
      ToBitsZero(n - 1);
    }
  }

  /** A number below 2^m has zeros above its m low bits. */
  lemma {:induction false} ToBitsPad(v: nat, m: nat, n: nat)
    requires v < Pow2(m) && m <= n
    ensures ToBits(v, n) == Zeros(n - m) + ToBits(v, m)
  {
    if m == 0 {
      ToBitsZero(n);
    } else {
      ToBitsPad(v / 2, m - 1, n - 1);
    }
  }

  lemma {:induction false} FromBitsPad(s: seq<bool>, n: nat)
    ensures FromBits(Zeros(n) + s) == FromBits(s)
  {
    if s == [] {
      assert Zeros(n) + s == Zeros(n);
      ToBitsZero(n);
      FromToBits(0, n);
    } else {
      assert (Zeros(n) + s)[..n + |s| - 1] == Zeros(n) + s[..|s| - 1];
      FromBitsPad(s[..|s| - 1], n);
    }
  }

  /** The converse of ToBitsPad. */
  lemma SmallFromBits(v: nat, m: nat, n: nat)
    requires v < Pow2(n) && m <= n
    requires ToBits(v, n)[..n - m] == Zeros(n - m)
    ensures v < Pow2(m) && v == FromBits(ToBits(v, n)[n - m..])
  {
    hide *;
    var s := ToBits(v, n);
    var t := s[n - m..];
    assert s == Zeros(n - m) + t;
    FromBitsPad(t, n - m);
    FromToBits(v, n);
    assert v == FromBits(t) && |t| == m;
  }

  /** The low bits of a number are the last of its bits. */
  lemma {:induction false} ToBitsSuffix(v: nat, m: nat, n: nat)
    requires m <= n
    ensures ToBits(v, n)[n - m..] == ToBits(v, m)
  {
    if m > 0 {
      ToBitsSuffix(v / 2, m - 1, n - 1);
      assert ToBits(v, n)[n - m..] == ToBits(v / 2, n - 1)[n - m..] + [v % 2 == 1];
    }
  }

  lemma {:induction false} DropTopBit(v: nat, n: nat)
    ensures ToBits(v + Pow2(n), n) == ToBits(v, n)
  {
    if n > 0 {
      DropTopBit(v / 2, n - 1);
      assert (v + Pow2(n)) / 2 == v / 2 + Pow2(n - 1);
    }
  }

  lemma {:induction false} DropMultiple(v: nat, q: nat)
    ensures ToBits(256 * q + v, 8) == ToBits(v, 8)
  {
    if q > 0 {
      DropMultiple(v, q - 1);
      Pow2Table();
      DropTopBit(256 * (q - 1) + v, 8);
    }
  }

  lemma ByteBits(x: Word)
    ensures ToBits(ToByte(x), 8) == ToBits(x, 32)[24..]
  {
    hide ToBits;
    ToBitsSuffix(x, 8, 32);
    DropMultiple(x % 256, x / 256);
    assert 256 * (x / 256) + x % 256 == x;
  }

  // ---- the operators, bit by bit ----

  lemma ShlOneBits(x: Word)
    ensures ToBits((2 * x) % WORD, 32) == ToBits(x, 32)[1..] + [false]
  {
    hide Pow2, ToBits;
    Pow2Word();
    ToBitsSuffix(x, 31, 32);
    var y := (2 * x) % WORD;
    ToBitsStep(y, 32);
    if 2 * x >= WORD {
      assert x == y / 2 + Pow2(31);
      DropTopBit(y / 2, 31);
    }
  }

  lemma {:induction false} ShlBits(x: Word, n: nat)
    requires n <= 32
    ensures ToBits(Shl(x, n), 32) == ToBits(x, 32)[n..] + Zeros(n)
    decreases n
  {
    hide ToBits;
    if n > 0 {
      var y := (2 * x) % WORD;
      ShlOneBits(x);
      ShlBits(y, n - 1);
      assert Shl(x, n) == Shl(y, n - 1);
      assert [false] + Zeros(n - 1) == Zeros(n);
      assert (ToBits(x, 32)[1..] + [false])[n - 1..] == ToBits(x, 32)[n..] + [false];
    }
  }

  lemma ShrOneBits(x: Word)
    ensures ToBits(x / 2, 32) == [false] + ToBits(x, 32)[..31]
  {
    hide Pow2, ToBits;
    Pow2Word();
    ToBitsStep(x, 32);
    assert Zeros(1) == [false];
    ToBitsPad(x / 2, 31, 32);
  }

  lemma {:induction false} ShrBits(x: Word, n: nat)
    requires n <= 32
    ensures ToBits(Shr(x, n), 32) == Zeros(n) + ToBits(x, 32)[..32 - n]
    decreases n
  {
    hide ToBits;
    if n > 0 {
      ShrOneBits(x);
      ShrBits(x / 2, n - 1);
      assert Shr(x, n) == Shr(x / 2, n - 1);
      assert Zeros(n - 1) + [false] == Zeros(n);
      assert ([false] + ToBits(x, 32)[..31])[..33 - n] == [false] + ToBits(x, 32)[..32 - n];
    }
  }

  lemma {:induction false} NotBitsUpTo(x: nat, n: nat)
    requires x < Pow2(n)
    ensures forall i :: 0 <= i < n ==> ToBits(Pow2(n) - 1 - x, n)[i] == !ToBits(x, n)[i]
  {
    if n > 0 {
      var y := Pow2(n) - 1 - x;
      NotBitsUpTo(x / 2, n - 1);
      assert y / 2 == Pow2(n - 1) - 1 - x / 2 && y % 2 == 1 - x % 2;
      assert ToBits(y, n) == ToBits(y / 2, n - 1) + [y % 2 == 1];
      assert ToBits(x, n) == ToBits(x / 2, n - 1) + [x % 2 == 1];
    }
  }

  lemma NotBits(x: Word)
    ensures forall i :: 0 <= i < 32 ==> ToBits(Not(x), 32)[i] == !ToBits(x, 32)[i]
  {
    Pow2Word();
    NotBitsUpTo(x, 32);
  }

  lemma AndBits(a: Word, b: Word)
    ensures forall i :: 0 <= i < 32 ==> ToBits(And(a, b), 32)[i] == (ToBits(a, 32)[i] && ToBits(b, 32)[i])
  {
    var s, t := ToBits(a, 32), ToBits(b, 32);
    ToFromBits(seq(32, i requires 0 <= i < 32 => s[i] && t[i]));
  }

  lemma OrBits(a: Word, b: Word)
    ensures forall i :: 0 <= i < 32 ==> ToBits(Or(a, b), 32)[i] == (ToBits(a, 32)[i] || ToBits(b, 32)[i])
  {
    var s, t := ToBits(a, 32), ToBits(b, 32);
    ToFromBits(seq(32, i requires 0 <= i < 32 => s[i] || t[i]));
  }

  lemma ByteOnes(ff: Byte)
    requires ff == 255
    ensures forall i :: 0 <= i < 8 ==> ToBits(ff, 8)[i]
  {
    NotBitsUpTo(0, 8);
    ToBitsZero(8);
    Pow2Table();
  }

  lemma MaskBits(ff: Byte, n: nat)
    requires ff == 255 && n <= 8
    ensures forall i :: 24 <= i < 32 ==> ToBits(Not(Shl(ff, n)), 32)[i] == (i >= 32 - n)
  {
    hide ToBits, Shl, Pow2, Not;
    Pow2Table();
    ByteOnes(ff);
    ToBitsPad(ff, 8, 32);
    ShlBits(ff, n);
    NotBits(Shl(ff, n));
    var s, f := ToBits(Shl(ff, n), 32), ToBits(ff, 32);
    forall i | 24 <= i < 32
      ensures s[i] == (i < 32 - n)
    {
      if i < 32 - n {
        assert s[i] == f[i + n];
      }
    }
  }

  /** `x & ~(0xff << n)` keeps the n low bits of a byte. */
  lemma MaskLow(x: Byte, ff: Byte, n: nat)
    requires ff == 255 && n <= 8
    ensures ToBits(And(x, Not(Shl(ff, n))), 32) == Zeros(32 - n) + ToBits(x, n)
  {
    hide ToBits, Shl, Pow2, Not, And;
    Pow2Table();
    var m := Not(Shl(ff, n));
    MaskBits(ff, n);
    AndBits(x, m);
    ToBitsPad(x, 8, 32);
    ToBitsSuffix(x, n, 32);
    var s, r := ToBits(And(x, m), 32), Zeros(32 - n) + ToBits(x, n);
    forall i | 0 <= i < 32
      ensures s[i] == r[i]
    {
      if i < 24 {
        assert !ToBits(x, 32)[i];
      } else if i >= 32 - n {
        assert ToBits(x, n)[i - (32 - n)] == ToBits(x, 32)[i];
      }
    }
  }

  lemma HighMaskBits(ones: Word, n: nat)
    requires n <= 32 && ones == Not(0)
    ensures forall i :: 0 <= i < 32 ==> ToBits(Shl(ones, n), 32)[i] == (i < 32 - n)
  {
    ToBitsZero(32);
    hide ToBits, Shl, Pow2, Not;
    NotBits(0);
    ShlBits(ones, n);
    var s, f := ToBits(Shl(ones, n), 32), ToBits(ones, 32);
    forall i | 0 <= i < 32
      ensures s[i] == (i < 32 - n)
    {
      assert f[i];
      if i < 32 - n {
        assert s[i] == f[i + n];
      }
    }
  }

  lemma ZeroWord(m: Word)
    ensures m == 0 <==> ToBits(m, 32) == Zeros(32)
  {
    ToBitsZero(32);
    hide ToBits, Pow2;
    Pow2Word();
    FromToBits(m, 32);
    FromToBits(0, 32);
  }

  /** `x & (~0 << n)` is zero exactly when x fits in n bits. */
  lemma MaskHigh(x: Word, n: nat)
    requires n <= 32
    ensures And(x, Shl(Not(0), n)) == 0 <==> x < Pow2(n)
  {
    hide ToBits, Shl, And, Pow2, Not;
    var mask := Shl(Not(0), n);
    var m := And(x, mask);
    HighMaskBits(Not(0), n);
    AndBits(x, mask);
    ZeroWord(m);
    Pow2Word();
    if m == 0 {
      forall i | 0 <= i < 32 - n
        ensures !ToBits(x, 32)[i]
      {
        assert ToBits(m, 32)[i] == ToBits(x, 32)[i];
      }
      assert ToBits(x, 32)[..32 - n] == Zeros(32 - n);
      SmallFromBits(x, n, 32);
    }
    if x < Pow2(n) {
      ToBitsPad(x, n, 32);
      assert ToBits(m, 32) == Zeros(32);
    }
  }

  // ---- byte strings ----

  lemma {:induction false} BytesBitsConcat(a: seq<Byte>, b: seq<Byte>)
    ensures BytesBits(a + b) == BytesBits(a) + BytesBits(b)
  {
    if a == [] {
      assert a + b == b;
    } else {
      BytesBitsConcat(a[1..], b);
      assert (a + b)[1..] == a[1..] + b;
    }
  }

  lemma BytesBitsSnoc(a: seq<Byte>, b: Byte)
    ensures BytesBits(a + [b]) == BytesBits(a) + ToBits(b, 8)
  {
    BytesBitsConcat(a, [b]);
    assert BytesBits([b]) == ToBits(b, 8) + BytesBits([]);
  }

  /** A byte string is determined by its bits. */
  lemma {:induction false} BytesBitsInjective(a: seq<Byte>, b: seq<Byte>)
    requires BytesBits(a) == BytesBits(b)
    ensures a == b
  {
    if a != [] {
      assert |a| == |b|;
      var x, y := BytesBits(a), BytesBits(b);
      assert x[..8] == ToBits(a[0], 8) && y[..8] == ToBits(b[0], 8);
      assert x[8..] == BytesBits(a[1..]) && y[8..] == BytesBits(b[1..]);
      Pow2Table();
      FromToBits(a[0], 8);
      FromToBits(b[0], 8);
      BytesBitsInjective(a[1..], b[1..]);
      assert a == [a[0]] + a[1..] && b == [b[0]] + b[1..];
    }
  }
}

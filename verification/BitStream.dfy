/** OutputBitstream and InputBitstream: bits packed into bytes through a partially filled
    held byte, left-aligned in the writer and right-aligned in the reader. Both classes are
    specified by the plain bit string they stand for. */
module BitStream {
  import opened Bits

  /** What a call that may fail a CHECK yields. */
  datatype Outcome<+T> = Done(value: T) | Thrown

  // ---- the bits of the words that write and read form ----

  /** ToBits(held, 8) is `h` followed by zeros; the value to append fits in n bits. */
  lemma NextHeldBits(v: Word, n: nat, next: nat)
    requires n <= 32 && v < Pow2(n) && next < 8
    ensures var t := Zeros(32 - n) + ToBits(v, n);
            ToBits(ToByte(Shl(v, 8 - next)), 8) == t[32 - next..] + Zeros(8 - next)
  {
    ToBitsPad(v, n, 32);
    ShlBits(v, 8 - next);
    ByteBits(Shl(v, 8 - next));
  }

  /** The bits that stay behind are the last `next` of the value. */
  lemma LastBitsHeld(v: Word, n: nat, next: nat)
    requires next <= n <= 32 && v < Pow2(n) && next < 8
    ensures ToBits(ToByte(Shl(v, 8 - next)), 8)[..next] == ToBits(v, n)[n - next..]
    ensures ToBits(ToByte(Shl(v, 8 - next)), 8)[next..] == Zeros(8 - next)
  {
    hide Zeros, ToBits, Shl, Pow2, ToByte;
    NextHeldBits(v, n, next);
    var t := ToBits(v, n);
    assert (Zeros(32 - n) + t)[32 - next..] == t[n - next..];
  }

  /** The held bits stay in front when fewer than eight bits are available. */
  lemma AppendToHeld(held: Byte, k: nat, v: Word, n: nat)
    requires k + n < 8 && v < Pow2(n)
    requires ToBits(held, 8)[k..] == Zeros(8 - k)
    ensures var b := Or(held, ToByte(Shl(v, 8 - (k + n))));
            b < 256 && ToBits(b, 8) == ToBits(held, 8)[..k] + ToBits(v, n) + Zeros(8 - k - n)
  {
    hide Zeros, ToBits, Pow2;
    var add := ToByte(Shl(v, 8 - (k + n)));
    var b := Or(held, add);
    NextHeldBits(v, n, k + n);
    Pow2Table();
    ToBitsPad(held, 8, 32);
    ToBitsPad(add, 8, 32);
    OrBits(held, add);
    var h, t := ToBits(held, 8), ToBits(v, n);
    assert h == h[..k] + Zeros(8 - k);
    var a, r := Zeros(k) + t + Zeros(8 - k - n), h[..k] + t + Zeros(8 - k - n);
    assert ToBits(add, 8) == a by {
      assert (Zeros(32 - n) + t)[32 - k - n..] == Zeros(k) + t;
    }
    forall i | 0 <= i < 8
      ensures ToBits(b, 32)[24 + i] == r[i]
    {
      assert ToBits(held, 32)[24 + i] == h[i] && ToBits(add, 32)[24 + i] == a[i];
    }
    assert ToBits(b, 32)[..24] == Zeros(24);
    SmallFromBits(b, 8, 32);
    ToBitsSuffix(b, 8, 32);
    assert ToBits(b, 8) == r;
  }

  lemma FlushLengths(n: nat, k: nat, next: nat, q: nat)
    requires n <= 32 && k < 8 && n + k >= 8 && next == (n + k) % 8 && q == (n + k) / 8
    ensures 1 <= q <= 4 && n + k == 8 * q + next && next <= n
    ensures (n - next) / 8 * 8 == if k == 0 then 8 * q else 8 * q - 8
  {
  }

  lemma Regroup(b: seq<bool>, h: seq<bool>, t: seq<bool>, m: nat)
    requires m <= |t|
    ensures b + (h + t[..m]) + t[m..] == b + h + t
  {
  }

  /** Two words whose set bits do not meet, side by side. */
  lemma OrBeside(a: seq<bool>, b: seq<bool>, o: seq<bool>, h: seq<bool>, t: seq<bool>, from: nat)
    requires |a| == |b| == |o| == from + |h| + |t|
    requires forall i :: 0 <= i < |o| ==> o[i] == (a[i] || b[i])
    requires a[from..] == h + Zeros(|t|) && b[from..] == Zeros(|h|) + t
    ensures o[from..] == h + t
  {
    forall i | 0 <= i < |h| + |t|
      ensures o[from + i] == (h + t)[i]
    {
      assert a[from + i] == a[from..][i] && b[from + i] == b[from..][i];
    }
  }

  /** The new bits, at the right of the word. */
  lemma WordRight(k: nat, v: Word, n: nat, next: nat, q: nat)
    requires k < 8 && n <= 32 && v < Pow2(n) && 1 <= q <= 4 && n + k == 8 * q + next && next < 8
    ensures ToBits(Shr(v, next), 32)[32 - 8 * q..] == Zeros(k) + ToBits(v, n)[..n - next]
  {
    hide Zeros, ToBits, Shr, Pow2;
    ToBitsPad(v, n, 32);
    ShrBits(v, next);
  }

  /** The held bits, in front of them. */
  lemma WordLeft(held: Byte, k: nat, top: nat, q: nat)
    requires k < 8 && ToBits(held, 8)[k..] == Zeros(8 - k) && 1 <= q <= 4
    requires top == if k == 0 then 8 * q else 8 * q - 8
    ensures ToBits(Shl(held, top), 32)[32 - 8 * q..] == ToBits(held, 8)[..k] + Zeros(8 * q - k)
  {
    hide Zeros, ToBits, Shl, Pow2;
    Pow2Table();
    ToBitsPad(held, 8, 32);
    ShlBits(held, top);
    var h := ToBits(held, 8);
    assert h == h[..k] + Zeros(8 - k);
  }

  /** The word that leaves the writer: the held bits, then all but the last `next` new bits. */
  lemma WriteWord(held: Byte, k: nat, v: Word, n: nat, top: nat, next: nat, q: nat)
    requires k < 8 && n <= 32 && v < Pow2(n)
    requires ToBits(held, 8)[k..] == Zeros(8 - k)
    requires 1 <= q <= 4 && n + k == 8 * q + next && next < 8
    requires top == if k == 0 then 8 * q else 8 * q - 8
    ensures ToBits(Or(Shl(held, top), Shr(v, next)), 32)[32 - 8 * q..]
         == ToBits(held, 8)[..k] + ToBits(v, n)[..n - next]
  {
    hide Zeros, ToBits, Shl, Shr, Or, Pow2;
    WordRight(k, v, n, next, q);
    WordLeft(held, k, top, q);
    var a, b := Shl(held, top), Shr(v, next);
    OrBits(a, b);
    OrBeside(ToBits(a, 32), ToBits(b, 32), ToBits(Or(a, b), 32), ToBits(held, 8)[..k], ToBits(v, n)[..n - next],
             32 - 8 * q);
  }

  lemma PrefixTrans(a: seq<Byte>, b: seq<Byte>, c: seq<Byte>)
    requires a <= b <= c
    ensures a <= c
  {
  }

  lemma JoinParts(b: seq<bool>, s: seq<bool>, i: nat, j: nat, k: nat)
    requires i <= j <= k <= |s|
    ensures b + s[i..j] + s[j..k] == b + s[i..k]
  {
  }

  /** The j-th byte of a word, counted from the right. */
  lemma WordByte(w: Word, j: nat)
    requires j < 4
    ensures ToBits(ToByte(Shr(w, 8 * j)), 8) == ToBits(w, 32)[24 - 8 * j..32 - 8 * j]
  {
    hide Zeros, ToBits, Shr, ToByte;
    ShrBits(w, 8 * j);
    ByteBits(Shr(w, 8 * j));
    MiddlePart(Zeros(8 * j), ToBits(w, 32), 24, 32 - 8 * j);
  }

  /** What lies at a place of the front part of t once z stands before it. */
  lemma MiddlePart(z: seq<bool>, t: seq<bool>, from: nat, n: nat)
    requires |z| <= from <= |z| + n && n <= |t|
    ensures (z + t[..n])[from..] == t[from - |z|..n]
  {
  }

  lemma AlignedLength(n: nat, k: nat)
    requires k < 8
    ensures (8 * n + k + (8 - k) % 8) % 8 == 0
  {
  }

  class OutputBitstream {
    var fifo: seq<Byte>
    var numHeldBits: nat
    var heldBits: Byte

    ghost predicate Valid()
      reads this
    {
      && numHeldBits < 8
      && ToBits(heldBits, 8)[numHeldBits..] == Zeros(8 - numHeldBits)
    }

    /** Every bit written since the last Clear. */
    ghost function Contents(): (s: seq<bool>)
      requires Valid()
      reads this
      ensures |s| == 8 * |fifo| + numHeldBits
    {
      BytesBits(fifo) + ToBits(heldBits, 8)[..numHeldBits]
    }

    constructor ()
      ensures Valid() && Contents() == [] && fifo == []
    {
      fifo, numHeldBits, heldBits := [], 0, 0;
      new;
      ToBitsZero(8);
    }

    method Clear()
      modifies this
      ensures Valid() && Contents() == [] && fifo == []
    {
      fifo, heldBits, numHeldBits := [], 0, 0;
      ToBitsZero(8);
    }

    function GetNumBitsUntilByteAligned(): (r: nat)
      requires Valid()
      reads this
      ensures r < 8 && (|Contents()| + r) % 8 == 0
    {
      AlignedLength(|fifo|, numHeldBits);
      (8 - numHeldBits) % 8
    }

    function GetNumberOfWrittenBits(): (r: nat)
      requires Valid()
      reads this
      ensures r == |Contents()| % WORD
    {
      (|fifo| * 8 + numHeldBits) % WORD
    }

    method Write(bits: Word, n: nat) returns (r: Outcome<()>)
      requires Valid()
      modifies this
      ensures Valid()
      ensures r.Done? <==> n <= 32 && bits < Pow2(n)
      ensures r.Done? ==> Contents() == old(Contents()) + ToBits(bits, n)
      ensures r.Done? ==> old(fifo) <= fifo
      ensures r.Thrown? ==> unchanged(this)
    {
      hide Zeros, ToBits, Shl, Shr, Or, And, Not, Pow2, BytesBits, ToByte;
      Pow2Word();
      if n > 32 {
        return Thrown;
      }
      MaskHigh(bits, n);
      if n != 32 && And(bits, Shl(Not(0), n)) != 0 {
        return Thrown;
      }
      if (n + numHeldBits) / 8 == 0 {
        HoldBits(bits, n);
      } else {
        FlushBits(bits, n);
      }
      return Done(());
    }

    /** Fewer than eight bits in all: nothing leaves the held byte. */
    method HoldBits(bits: Word, n: nat)
      requires Valid() && n + numHeldBits < 8 && bits < Pow2(n)
      modifies this
      ensures Valid() && fifo == old(fifo)
      ensures Contents() == old(Contents()) + ToBits(bits, n)
    {
      hide Zeros, ToBits, Shl, Or, Pow2, BytesBits, ToByte;
      ghost var h, t := ToBits(heldBits, 8)[..numHeldBits], ToBits(bits, n);
      var next := n + numHeldBits;
      AppendToHeld(heldBits, numHeldBits, bits, n);
      heldBits := Or(heldBits, ToByte(Shl(bits, 8 - next)));
      numHeldBits := next;
      assert ToBits(heldBits, 8)[..next] == h + t;
    }

    /** Whole bytes are available: push them and keep the rest. */
    method FlushBits(bits: Word, n: nat)
      requires Valid() && n <= 32 && n + numHeldBits >= 8 && bits < Pow2(n)
      modifies this
      ensures Valid() && old(fifo) <= fifo
      ensures Contents() == old(Contents()) + ToBits(bits, n)
    {
      hide Zeros, ToBits, Shl, Shr, Or, Pow2, BytesBits, ToByte;
      ghost var b, h := BytesBits(fifo), ToBits(heldBits, 8)[..numHeldBits];
      var total := n + numHeldBits;
      var next := total % 8;
      var nextHeld := ToByte(Shl(bits, 8 - next));
      FlushLengths(n, numHeldBits, next, total / 8);
      var topword := (n - next) / 8 * 8;
      var word := Or(Shl(heldBits, topword), Shr(bits, next));
      WriteWord(heldBits, numHeldBits, bits, n, topword, next, total / 8);
      LastBitsHeld(bits, n, next);
      PushBytes(word, total / 8);
      assert BytesBits(fifo) == b + (h + ToBits(bits, n)[..n - next]);
      heldBits := nextHeld;
      numHeldBits := next;
      ghost var t := ToBits(bits, n);
      assert ToBits(heldBits, 8)[..next] == t[n - next..];
      Regroup(b, h, t, n - next);
    }

    /** The fall-through switch: append the q low bytes of the word, highest first. */
    method PushBytes(word: Word, q: nat)
      requires 1 <= q <= 4
      modifies this`fifo
      ensures old(fifo) <= fifo
      ensures BytesBits(fifo) == old(BytesBits(fifo)) + ToBits(word, 32)[32 - 8 * q..]
    {
      hide *;
      ghost var b, s, from: nat := BytesBits(fifo), ToBits(word, 32), 32 - 8 * q;
      ghost var before := fifo;
      ghost var at: nat := from;
      assert b == b + s[from..at];
      if q >= 4 {
        at := PushPart(word, 3, b, from, at, before);
      }
      assert BytesBits(fifo) == b + s[from..at] && (q >= 3 ==> at == 8) && at == if q >= 4 then 8 else from;
      if q >= 3 {
        at := PushPart(word, 2, b, from, at, before);
      }
      assert BytesBits(fifo) == b + s[from..at] && (q >= 2 ==> at == 16) && at == if q >= 3 then 16 else from;
      if q >= 2 {
        at := PushPart(word, 1, b, from, at, before);
      }
      assert BytesBits(fifo) == b + s[from..at] && at == 24;
      at := PushPart(word, 0, b, from, at, before);
      assert s[from..32] == s[from..];
    }

    /** Appends the j-th byte from the right to what has been appended of the word since `before`. */
    method PushPart(word: Word, j: nat, ghost b: seq<bool>, ghost from: nat, ghost at: nat, ghost before: seq<Byte>)
      returns (ghost next: nat)
      requires j < 4 && from <= at == 24 - 8 * j && before <= fifo
      requires BytesBits(fifo) == b + ToBits(word, 32)[from..at]
      modifies this`fifo
      ensures next == 32 - 8 * j && before <= fifo
      ensures BytesBits(fifo) == b + ToBits(word, 32)[from..next]
    {
      hide *;
      ghost var was := fifo;
      PushByte(word, j);
      next := 32 - 8 * j;
      JoinParts(b, ToBits(word, 32), from, at, next);
      PrefixTrans(before, was, fifo);
    }

    /** One byte of the word, the j-th from the right. */
    method PushByte(word: Word, j: nat)
      requires j < 4
      modifies this`fifo
      ensures old(fifo) <= fifo
      ensures BytesBits(fifo) == old(BytesBits(fifo)) + ToBits(word, 32)[24 - 8 * j..32 - 8 * j]
    {
      hide *;
      WordByte(word, j);
      BytesBitsSnoc(fifo, ToByte(Shr(word, 8 * j)));
      fifo := fifo + [ToByte(Shr(word, 8 * j))];
    }

    /** Fill the last byte with ones. */
    method WriteAlignOne()
      requires Valid()
      modifies this
      ensures Valid() && numHeldBits == 0
      ensures Contents() == old(Contents()) + Ones(old(GetNumBitsUntilByteAligned()))
    {
      hide Zeros, ToBits, BytesBits, Pow2, Shl;
      Pow2Table();
      var n := GetNumBitsUntilByteAligned();
      ShlPow2(0, n);
      var r := Write(Shl(1, n) - 1, n);
      AllOnes(n);
    }

    /** Fill the last byte with zeros. */
    method WriteAlignZero()
      requires Valid()
      modifies this
      ensures Valid() && numHeldBits == 0 && heldBits == old(if numHeldBits == 0 then heldBits else 0)
      ensures Contents() == old(Contents()) + Zeros(old(GetNumBitsUntilByteAligned()))
    {
      hide Zeros, ToBits, BytesBits;
      if numHeldBits == 0 {
        return;
      }
      BytesBitsSnoc(fifo, heldBits);
      ToBitsZero(8);
      ghost var b, h := BytesBits(fifo), ToBits(heldBits, 8)[..numHeldBits];
      assert b + ToBits(heldBits, 8) == b + h + Zeros(8 - numHeldBits);
      fifo := fifo + [heldBits];
      heldBits := 0;
      numHeldBits := 0;
    }

    /** A one, then zeros up to the byte boundary. */
    method WriteByteAlignment()
      requires Valid()
      modifies this
      ensures Valid() && numHeldBits == 0
      ensures Contents() == old(Contents()) + Trailer(old(|Contents()|))
      ensures BytesBits(fifo) == Contents()
    {
      hide Zeros, ToBits, BytesBits, Pow2, Trailer, Valid, Contents;
      ghost var c := Contents();
      BitOne();
      var r := Write(1, 1);
      ghost var k := GetNumBitsUntilByteAligned();
      WriteAlignZero();
      TrailerSplit(c, k);
      Aligned();
    }

    lemma Aligned()
      requires Valid() && numHeldBits == 0
      ensures BytesBits(fifo) == Contents()
    {
      hide BytesBits, ToBits, Zeros;
    }

    /** Append all bits of another stream. */
    method AddSubstream(sub: OutputBitstream)
      requires Valid() && sub.Valid() && sub != this
      modifies this
      ensures Valid() && sub.Valid()
      ensures Contents() == old(Contents()) + sub.Contents()
    {
      hide Zeros, ToBits, Shr, Pow2, BytesBits;
      Pow2Table();
      var numBits := sub.GetNumberOfWrittenBits();
      assert numBits % 8 == sub.numHeldBits;
      var rbsp := sub.fifo;
      var it := 0;
      while it < |rbsp|
        invariant it <= |rbsp| && Valid()
        invariant Contents() == old(Contents()) + BytesBits(rbsp[..it])
      {
        BytesBitsSnoc(rbsp[..it], rbsp[it]);
        assert rbsp[..it + 1] == rbsp[..it] + [rbsp[it]];
        var r := Write(rbsp[it], 8);
        it := it + 1;
      }
      assert rbsp[..it] == rbsp;
      assert Contents() == old(Contents()) + BytesBits(rbsp);
      if numBits % 8 != 0 {
        var k := numBits % 8;
        HeldShift(sub.heldBits, k);
        var r := Write(Shr(sub.heldBits, 8 - k), k);
      }
    }
  }

  /** The rbsp trailing bits that follow n payload bits. */
  function Trailer(n: nat): seq<bool> {
    [true] + Zeros((7 - n) % 8)
  }

  lemma TrailerSplit(c: seq<bool>, k: nat)
    requires k < 8 && (|c| + 1 + k) % 8 == 0
    ensures c + [true] + Zeros(k) == c + Trailer(|c|)
  {
    hide Zeros;
    assert k == (7 - |c|) % 8;
    assert c + [true] + Zeros(k) == c + ([true] + Zeros(k));
  }

  lemma BitOne()
    ensures ToBits(1, 1) == [true] && 1 < Pow2(1)
  {
  }

  lemma {:induction false} ShlPow2(a: nat, n: nat)
    requires a + n < 32
    ensures Pow2(a) < WORD && Shl(Pow2(a), n) == Pow2(a + n)
    decreases n
  {
    Pow2Mono(a, 31);
    Pow2Word();
    Pow2Succ(a);
    if n == 0 {
      ShlNone(Pow2(a));
    } else {
      hide Shl, Pow2;
      ShlPow2(a + 1, n - 1);
      ShlNext(Pow2(a), n);
      Pow2Mono(a + 1, 31);
    }
  }

  lemma ShlNone(x: Word)
    ensures Shl(x, 0) == x
  {
  }

  lemma ShlNext(x: Word, n: nat)
    requires n > 0 && 2 * x < WORD
    ensures Shl(x, n) == Shl(2 * x, n - 1)
  {
  }

  lemma HeldShift(held: Byte, k: nat)
    requires 0 < k < 8
    ensures Shr(held, 8 - k) < Pow2(k)
    ensures ToBits(Shr(held, 8 - k), k) == ToBits(held, 8)[..k]
  {
    hide Zeros, ToBits, Shr, Pow2;
    Pow2Table();
    Pow2Word();
    ToBitsPad(held, 8, 32);
    ShrBits(held, 8 - k);
    var x := Shr(held, 8 - k);
    assert ToBits(x, 32) == Zeros(32 - k) + ToBits(held, 8)[..k];
    SmallFromBits(x, k, 32);
    ToBitsSuffix(x, k, 32);
  }

  function Ones(n: nat): (s: seq<bool>)
    ensures |s| == n
    ensures forall i :: 0 <= i < n ==> s[i]
  {
    seq(n, _ => true)
  }

  lemma {:induction false} AllOnes(n: nat)
    ensures ToBits(Pow2(n) - 1, n) == Ones(n)
  {
    if n > 0 {
      AllOnes(n - 1);
      assert (Pow2(n) - 1) / 2 == Pow2(n - 1) - 1;
    }
  }

  // ---- reading ----

  /** Shifting the held byte leaves a byte that ends in the first n of its last k bits. */
  lemma HeldFront(held: Byte, k: nat, n: nat)
    requires n <= k < 8
    ensures Shr(held, k - n) < 256
    ensures ToBits(Shr(held, k - n), n) == ToBits(held, k)[..n]
    ensures ToBits(held, k)[n..] == ToBits(held, k - n)
  {
    hide Zeros, ToBits, Shr, Pow2;
    Pow2Table();
    Pow2Word();
    var x := Shr(held, k - n);
    ToBitsPad(held, 8, 32);
    ShrBits(held, k - n);
    ToBitsSuffix(held, k, 32);
    ToBitsSuffix(held, k - n, k);
    assert ToBits(x, 32)[..24] == Zeros(24);
    SmallFromBits(x, 8, 32);
    ToBitsSuffix(x, n, 32);
  }

  /** Masking keeps the last n bits of a byte. */
  lemma HeldMask(x: Byte, ff: Byte, n: nat)
    requires n < 8 && ff == 255
    ensures And(x, Not(Shl(ff, n))) == FromBits(ToBits(x, n))
  {
    hide Zeros, ToBits, Shl, And, Not, Pow2, FromBits;
    Pow2Table();
    Pow2Word();
    var r := And(x, Not(Shl(ff, n)));
    MaskLow(x, ff, n);
    ToBitsSuffix(x, n, 32);
    assert ToBits(r, 32)[..32 - n] == Zeros(32 - n);
    SmallFromBits(r, n, 32);
    assert ToBits(r, 32)[32 - n..] == ToBits(x, n);
  }

  /** Taking n of the k held bits, which sit at the right of the held byte. */
  lemma HeldRead(held: Byte, k: nat, ff: Byte, n: nat)
    requires n <= k < 8 && ff == 255
    ensures Shr(held, k - n) < 256
    ensures And(Shr(held, k - n), Not(Shl(ff, n))) == FromBits(ToBits(held, k)[..n])
    ensures ToBits(held, k)[n..] == ToBits(held, k - n)
  {
    HeldFront(held, k, n);
    hide *;
    HeldMask(Shr(held, k - n), ff, n);
  }

  /** One more byte of the aligned word. */
  lemma LoadByte(word: Word, a: seq<bool>, b: Byte, j: nat)
    requires j < 4 && |a| == 24 - 8 * j && ToBits(word, 32) == a + Zeros(8 * j + 8)
    ensures ToBits(Or(word, Shl(b, 8 * j)), 32) == a + ToBits(b, 8) + Zeros(8 * j)
  {
    hide Zeros, ToBits, Shl, Or, Pow2;
    Pow2Table();
    var t := ToBits(b, 8);
    ToBitsPad(b, 8, 32);
    ShlBits(b, 8 * j);
    OrBits(word, Shl(b, 8 * j));
    var x, r := ToBits(Or(word, Shl(b, 8 * j)), 32), a + t + Zeros(8 * j);
    assert ToBits(Shl(b, 8 * j), 32) == Zeros(24 - 8 * j) + t + Zeros(8 * j);
    forall i | 0 <= i < 32
      ensures x[i] == r[i]
    {
    }
  }

  /** The word returned by read: the held bits, then the top n of the m loaded bytes. */
  lemma ReadWord(held: Byte, k: nat, ff: Byte, word: Word, loaded: seq<bool>, n: nat, next: nat)
    requires k < 8 && ff == 255 && 1 <= n && n + k <= 32 && next < 8 && |loaded| == n + next <= 32
    requires ToBits(word, 32) == Zeros(32 - n - next) + loaded
    ensures Or(Shl(And(held, Not(Shl(ff, k))), n), Shr(word, next)) == FromBits(ToBits(held, k) + loaded[..n])
  {
    hide Zeros, ToBits, Shl, Shr, And, Or, Not, Pow2, FromBits;
    Pow2Word();
    var h := ToBits(held, k);
    var a, b := Shl(And(held, Not(Shl(ff, k))), n), Shr(word, next);
    MaskLow(held, ff, k);
    ShlBits(And(held, Not(Shl(ff, k))), n);
    assert ToBits(a, 32) == Zeros(32 - k - n) + h + Zeros(n);
    ShrBits(word, next);
    assert ToBits(b, 32) == Zeros(32 - n) + loaded[..n];
    OrBits(a, b);
    var o := ToBits(Or(a, b), 32);
    assert ToBits(b, 32)[32 - k - n..] == Zeros(k) + loaded[..n];
    OrBeside(ToBits(a, 32), ToBits(b, 32), o, h, loaded[..n], 32 - k - n);
    assert o[..32 - k - n] == Zeros(32 - k - n);
    SmallFromBits(Or(a, b), k + n, 32);
  }

  /** The bits left over from the loaded bytes. */
  lemma LeftoverBits(word: Word, loaded: seq<bool>, next: nat)
    requires next < 8 <= |loaded| <= 32
    requires ToBits(word, 32) == Zeros(32 - |loaded|) + loaded
    ensures ToBits(ToByte(word), next) == loaded[|loaded| - next..]
  {
    hide Zeros, ToBits, ToByte;
    ByteBits(word);
    ToBitsSuffix(ToByte(word), next, 8);
    assert ToBits(word, 32)[24..][8 - next..] == loaded[|loaded| - next..];
  }

  /** The state between two cases of the loading switch: j of m bytes are still to come. */
  ghost predicate Loading(word: Word, fifo: seq<Byte>, start: nat, idx: nat, m: nat, j: nat) {
    && j <= m <= 4 && start <= idx <= |fifo| && idx + j == start + m
    && ToBits(word, 32) == Zeros(32 - 8 * m) + BytesBits(fifo[start..idx]) + Zeros(8 * j)
  }

  lemma LoadStart(fifo: seq<Byte>, start: nat, m: nat)
    requires m <= 4 && start <= |fifo|
    ensures Loading(0, fifo, start, start, m, m)
  {
    ToBitsZero(32);
    hide Zeros, ToBits;
    assert BytesBits(fifo[start..start]) == [];
  }

  lemma LoadStep(word: Word, fifo: seq<Byte>, start: nat, idx: nat, m: nat, j: nat)
    requires idx < |fifo| && Loading(word, fifo, start, idx, m, j + 1)
    ensures Loading(Or(word, Shl(fifo[idx], 8 * j)), fifo, start, idx + 1, m, j)
  {
    hide Zeros, ToBits, Shl, Or, BytesBits;
    LoadByte(word, Zeros(32 - 8 * m) + BytesBits(fifo[start..idx]), fifo[idx], j);
    BytesBitsSnoc(fifo[start..idx], fifo[idx]);
    assert fifo[start..idx + 1] == fifo[start..idx] + [fifo[idx]];
  }

  lemma ReadSplit(h: seq<bool>, loaded: seq<bool>, rest: seq<bool>, n: nat)
    requires n <= |loaded|
    ensures (h + (loaded + rest))[..|h| + n] == h + loaded[..n]
    ensures (h + (loaded + rest))[|h| + n..] == loaded[n..] + rest
  {
  }

  lemma {:induction false} PadRight(v: Word, s: seq<bool>, n: nat)
    requires v == FromBits(s) && |s| + n <= 32
    ensures Shl(v, n) == FromBits(s + Zeros(n))
    decreases n
  {
    hide Pow2, FromBits, Shl;
    if n == 0 {
      ShlNone(v);
      assert s + Zeros(0) == s;
    } else {
      Pow2Word();
      Pow2Mono(|s|, 31);
      FromBitsSnoc(s, false);
      PadRight(2 * v, s + [false], n - 1);
      ShlNext(v, n);
      assert s + [false] + Zeros(n - 1) == s + Zeros(n);
    }
  }

  class InputBitstream {
    var fifo: seq<Byte>
    var fifoIdx: nat
    var numHeldBits: nat
    var heldBits: Byte
    var numBitsRead: nat

    ghost predicate Valid()
      reads this
    {
      fifoIdx <= |fifo| && numHeldBits < 8
    }

    /** The bits not yet read. */
    ghost function Remaining(): (s: seq<bool>)
      requires Valid()
      reads this
      ensures |s| == 8 * (|fifo| - fifoIdx) + numHeldBits
    {
      ToBits(heldBits, numHeldBits) + BytesBits(fifo[fifoIdx..])
    }

    constructor (buffer: seq<Byte>)
      ensures Valid() && fifo == buffer && fifoIdx == 0 && numHeldBits == 0
      ensures Remaining() == BytesBits(buffer)
    {
      fifo, fifoIdx, numHeldBits, heldBits, numBitsRead := buffer, 0, 0, 0, 0;
    }

    method ResetToStart()
      modifies this
      ensures Valid() && fifo == old(fifo) && Remaining() == BytesBits(fifo)
    {
      fifoIdx, numHeldBits, heldBits, numBitsRead := 0, 0, 0, 0;
    }

    function GetNumBitsUntilByteAligned(): (r: nat)
      requires Valid()
      reads this
      ensures r < 8 && (|Remaining()| - r) % 8 == 0
    {
      numHeldBits % 8
    }

    /** A uint32_t: exact on buffers below 2^29 bytes. */
    function GetNumBitsLeft(): (r: nat)
      requires Valid()
      reads this
      ensures r == |Remaining()| % WORD
    {
      (8 * (|fifo| - fifoIdx) + numHeldBits) % WORD
    }

    /** The fall-through switch: m bytes into one right-aligned word. */
    method LoadBytes(m: nat) returns (word: Word)
      requires Valid() && 1 <= m <= 4 && fifoIdx + m <= |fifo|
      modifies this`fifoIdx
      ensures Valid() && fifoIdx == old(fifoIdx) + m
      ensures Loading(word, fifo, old(fifoIdx), fifoIdx, m, 0)
    {
      hide Zeros, ToBits, Shl, Or, BytesBits, Loading;
      word := 0;
      ghost var start := fifoIdx;
      LoadStart(fifo, start, m);
      if m >= 4 {
        LoadStep(word, fifo, start, fifoIdx, m, 3);
        word := Or(word, Shl(fifo[fifoIdx], 24));
        fifoIdx := fifoIdx + 1;
      }
      if m >= 3 {
        LoadStep(word, fifo, start, fifoIdx, m, 2);
        word := Or(word, Shl(fifo[fifoIdx], 16));
        fifoIdx := fifoIdx + 1;
      }
      if m >= 2 {
        LoadStep(word, fifo, start, fifoIdx, m, 1);
        word := Or(word, Shl(fifo[fifoIdx], 8));
        fifoIdx := fifoIdx + 1;
      }
      LoadStep(word, fifo, start, fifoIdx, m, 0);
      word := Or(word, Shl(fifo[fifoIdx], 0));
      fifoIdx := fifoIdx + 1;
    }

    /** The next n bits as a number; a request past the end fails and consumes nothing. */
    method Read(n: nat) returns (r: Outcome<nat>)
      requires Valid()
      modifies this
      ensures Valid() && fifo == old(fifo)
      ensures r.Done? <==> n <= 32 && n <= old(|Remaining()|)
      ensures r.Done? ==> r.value == FromBits(old(Remaining())[..n]) && Remaining() == old(Remaining())[n..]
      ensures r.Thrown? ==> unchanged(this`fifoIdx, this`numHeldBits, this`heldBits)
      ensures numBitsRead == if n > 32 then old(numBitsRead) else (old(numBitsRead) + n) % WORD
    {
      hide Zeros, ToBits, Shl, Shr, And, Or, Not, Pow2, BytesBits, FromBits, ToByte;
      if n > 32 {
        return Thrown;
      }
      numBitsRead := (numBitsRead + n) % WORD;
      if n <= numHeldBits {
        var value := ReadHeld(n);
        return Done(value);
      }
      var k := numHeldBits;
      var bytesToLoad := (n - k - 1) / 8;
      if fifoIdx + bytesToLoad >= |fifo| {
        return Thrown;
      }
      var value := ReadLoaded(n - k);
      return Done(value);
    }

    method ReadHeld(n: nat) returns (value: nat)
      requires Valid() && n <= numHeldBits
      modifies this`numHeldBits
      ensures Valid()
      ensures value == FromBits(old(Remaining())[..n]) && Remaining() == old(Remaining())[n..]
    {
      hide Zeros, ToBits, Shl, Shr, And, Not, Pow2, BytesBits, FromBits;
      HeldRead(heldBits, numHeldBits, 0xff, n);
      value := And(Shr(heldBits, numHeldBits - n), Not(Shl(0xff, n)));
      ghost var h, rest := ToBits(heldBits, numHeldBits), BytesBits(fifo[fifoIdx..]);
      numHeldBits := numHeldBits - n;
      assert (h + rest)[..n] == h[..n];
      assert (h + rest)[n..] == h[n..] + rest;
    }

    /** All held bits, then n more from freshly loaded bytes. */
    method ReadLoaded(n: nat) returns (value: nat)
      requires Valid() && 1 <= n && n + numHeldBits <= 32 && fifoIdx + (n - 1) / 8 < |fifo|
      modifies this`fifoIdx, this`numHeldBits, this`heldBits
      ensures Valid()
      ensures value == FromBits(old(Remaining())[..old(numHeldBits) + n])
      ensures Remaining() == old(Remaining())[old(numHeldBits) + n..]
    {
      hide Zeros, ToBits, Shl, Shr, And, Or, Not, Pow2, BytesBits, FromBits, ToByte;
      ghost var h, start, m := ToBits(heldBits, numHeldBits), fifoIdx, (n - 1) / 8 + 1;
      value := Shl(And(heldBits, Not(Shl(0xff, numHeldBits))), n);
      var alignedWord := LoadBytes((n - 1) / 8 + 1);
      ghost var loaded, rest := BytesBits(fifo[start..fifoIdx]), BytesBits(fifo[fifoIdx..]);
      var next := (32 - n) % 8;
      assert n + next == 8 * m;
      ReadWord(heldBits, numHeldBits, 0xff, alignedWord, loaded, n, next);
      LeftoverBits(alignedWord, loaded, next);
      value := Or(value, Shr(alignedWord, next));
      numHeldBits := next;
      heldBits := ToByte(alignedWord);
      assert BytesBits(fifo[start..]) == loaded + rest by {
        BytesBitsConcat(fifo[start..fifoIdx], fifo[fifoIdx..]);
        assert fifo[start..] == fifo[start..fifoIdx] + fifo[fifoIdx..];
      }
      ReadSplit(h, loaded, rest, n);
    }

    /** Look ahead n bits, zero-padded past the end, without moving. */
    method PseudoRead(n: nat) returns (value: nat)
      requires Valid() && n <= 32 && |Remaining()| < WORD
      modifies this
      ensures Valid() && unchanged(this`fifo, this`fifoIdx, this`numHeldBits, this`heldBits)
      ensures value == FromBits((old(Remaining()) + Zeros(n))[..n])
    {
      hide Zeros, ToBits, Shl, Pow2, BytesBits, FromBits;
      var savedNum, savedHeld, savedIdx := numHeldBits, heldBits, fifoIdx;
      ghost var rem := Remaining();
      var toRead := if n <= GetNumBitsLeft() then n else GetNumBitsLeft();
      var r := Read(toRead);
      Pow2Word();
      Pow2Mono(toRead, 32);
      PadRight(r.value, rem[..toRead], n - toRead);
      PaddedPrefix(rem, n, toRead);
      value := Shl(r.value, n - toRead);
      fifoIdx, heldBits, numHeldBits := savedIdx, savedHeld, savedNum;
    }

    /** Skip to the next byte boundary. */
    method ReadOutTrailingBits() returns (count: nat)
      requires Valid() && |Remaining()| < WORD
      modifies this
      ensures Valid() && fifo == old(fifo) && numHeldBits == 0
      ensures count == old(numHeldBits) && Remaining() == old(Remaining())[count..]
    {
      hide Zeros, ToBits, BytesBits, FromBits;
      count := 0;
      while GetNumBitsLeft() > 0 && GetNumBitsUntilByteAligned() != 0
        invariant Valid() && fifo == old(fifo) && |Remaining()| < WORD
        invariant fifoIdx == old(fifoIdx)
        invariant count + numHeldBits == old(numHeldBits) && Remaining() == old(Remaining())[count..]
        decreases numHeldBits
      {
        ghost var before := numHeldBits;
        count := count + 1;
        var r := Read(1);
        assert numHeldBits + 8 * (|fifo| - fifoIdx) == |Remaining()|;
      }
    }

    /** Consume the trailer that WriteByteAlignment leaves. */
    method ReadByteAlignment() returns (r: Outcome<nat>)
      requires Valid() && |Remaining()| < WORD
      modifies this
      ensures Valid() && fifo == old(fifo)
      ensures r.Done? <==> IsTrailer(old(Remaining()))
      ensures r.Done? ==> r.value == TrailerLength(old(|Remaining()|)) && Remaining() == old(Remaining())[r.value..]
    {
      hide Zeros, ToBits, BytesBits, FromBits, Remaining, IsTrailer, TrailerLength, GetNumBitsUntilByteAligned,
           GetNumBitsLeft, Valid;
      ghost var rem := Remaining();
      var code := Read(1);
      if code.Thrown? || code.value != 1 {
        if code.Done? { OneBit(rem); }
        NoTrailer(rem);
        return Thrown;
      }
      OneBit(rem);
      TrailerMeans(rem);
      var numBits := GetNumBitsUntilByteAligned();
      TrailerRest(|rem|, numBits);
      if numBits != 0 {
        if numBits > GetNumBitsLeft() {
          return Thrown;
        }
        var zeros := Read(numBits);
        ZeroBits(rem[1..][..numBits]);
        SliceOfTail(rem, numBits);
        if zeros.value != 0 {
          return Thrown;
        }
      }
      return Done(numBits + 1);
    }

    /** The next n bits as a stream of their own, zero-padded to whole bytes.
        On a byte boundary missing whole bytes are replaced by zeros. */
    method ExtractSubstream(n: nat) returns (r: Outcome<InputBitstream>)
      requires Valid()
      modifies this
      ensures Valid() && fifo == old(fifo)
      ensures r.Done? <==> n <= old(|Remaining()|) || (old(numHeldBits) == 0 && n % 8 == 0)
      ensures r.Done? ==> fresh(r.value) && r.value.Valid()
      ensures r.Done? && n <= old(|Remaining()|) ==>
        r.value.Remaining() == PadToByte(old(Remaining())[..n]) && Remaining() == old(Remaining())[n..]
      ensures r.Done? && n > old(|Remaining()|) ==>
        r.value.Remaining() == old(Remaining()) + Zeros(n - old(|Remaining()|)) && Remaining() == []
    {
      hide Zeros, ToBits, BytesBits, PadToByte;
      ghost var rem := Remaining();
      var numBytes := n / 8;
      var buf: seq<Byte> := [];
      if numHeldBits == 0 {
        buf := CopyBytes(numBytes);
      } else {
        var bytes := ReadBytes(numBytes);
        if bytes.Thrown? {
          return Thrown;
        }
        buf := bytes.value;
      }
      if n % 8 != 0 {
        var last := ReadLastByte(n % 8);
        if last.Thrown? {
          return Thrown;
        }
        BytesBitsSnoc(buf, last.value);
        buf := buf + [last.value];
      }
      var result := new InputBitstream(buf);
      ExtractedBits(rem, n);
      return Done(result);
    }

    /** The read(8) path: n whole bytes at any alignment. */
    method ReadBytes(n: nat) returns (r: Outcome<seq<Byte>>)
      requires Valid()
      modifies this
      ensures Valid() && fifo == old(fifo)
      ensures r.Done? <==> 8 * n <= old(|Remaining()|)
      ensures r.Done? ==> BytesBits(r.value) == old(Remaining())[..8 * n] && Remaining() == old(Remaining())[8 * n..]
    {
      hide Zeros, ToBits, BytesBits, FromBits;
      ghost var rem := Remaining();
      var buf: seq<Byte> := [];
      for i := 0 to n
        invariant Valid() && fifo == old(fifo)
        invariant 8 * i <= |rem| && Remaining() == rem[8 * i..]
        invariant BytesBits(buf) == rem[..8 * i]
      {
        var byte := Read(8);
        if byte.Thrown? {
          return Thrown;
        }
        Pow2Table();
        ToFromBits(rem[8 * i..][..8]);
        BytesBitsSnoc(buf, byte.value);
        buf := buf + [byte.value];
        assert rem[..8 * i] + rem[8 * i..][..8] == rem[..8 * i + 8];
      }
      return Done(buf);
    }

    /** Fewer than eight bits, moved to the top of a byte. */
    method ReadLastByte(n: nat) returns (r: Outcome<Byte>)
      requires Valid() && 0 < n < 8
      modifies this
      ensures Valid() && fifo == old(fifo)
      ensures r.Done? <==> n <= old(|Remaining()|)
      ensures r.Done? ==> ToBits(r.value, 8) == PadToByte(old(Remaining())[..n]) && Remaining() == old(Remaining())[n..]
    {
      hide Zeros, ToBits, BytesBits, FromBits, Shl, ToByte, PadToByte;
      ghost var rem := Remaining();
      var byte := Read(n);
      if byte.Thrown? {
        return Thrown;
      }
      LastByte(rem[..n], byte.value);
      return Done(ToByte(Shl(byte.value, 8 - n)));
    }

    /** The memcpy path: whole bytes, then zero bytes when the buffer runs short. */
    method CopyBytes(numBytes: nat) returns (buf: seq<Byte>)
      requires Valid() && numHeldBits == 0
      modifies this`fifoIdx
      ensures Valid()
      ensures BytesBits(buf) == (old(Remaining()) + Zeros(8 * numBytes))[..8 * numBytes]
      ensures Remaining()
           == old(Remaining())[if 8 * numBytes <= old(|Remaining()|) then 8 * numBytes else old(|Remaining()|)..]
    {
      hide Zeros, ToBits, BytesBits;
      var take := if numBytes <= |fifo| - fifoIdx then numBytes else |fifo| - fifoIdx;
      buf := fifo[fifoIdx..fifoIdx + take];
      ghost var rem := Remaining();
      ghost var front, rest := BytesBits(buf), BytesBits(fifo[fifoIdx + take..]);
      assert rem == front + rest by {
        BytesBitsConcat(buf, fifo[fifoIdx + take..]);
        assert fifo[fifoIdx..] == buf + fifo[fifoIdx + take..];
      }
      fifoIdx := fifoIdx + take;
      assert Remaining() == rest;
      var pad := seq(numBytes - take, _ => 0);
      ZeroBytes(pad);
      BytesBitsConcat(buf, pad);
      buf := buf + pad;
    }
  }

  // ---- trailing bits and padding ----

  /** How many bits the trailer at the end of n remaining bits has. */
  function TrailerLength(n: nat): nat {
    1 + (n + 7) % 8
  }

  predicate IsTrailer(rem: seq<bool>) {
    && rem != []
    && rem[0]
    && rem[1..TrailerLength(|rem|)] == Zeros(TrailerLength(|rem|) - 1)
  }

  function PadToByte(s: seq<bool>): (r: seq<bool>)
    ensures |r| % 8 == 0 && s <= r && |r| < |s| + 8
  {
    s + Zeros((8 - |s| % 8) % 8)
  }

  lemma PaddedPrefix(rem: seq<bool>, n: nat, m: nat)
    requires m <= |rem| && m <= n && (m < n ==> m == |rem|)
    ensures (rem + Zeros(n))[..n] == rem[..m] + Zeros(n - m)
  {
  }

  lemma ExtractedWhole(rem: seq<bool>, n: nat)
    requires n <= |rem|
    ensures var m := n / 8 * 8;
            && (rem + Zeros(m))[..m] == rem[..m] && rem[m..][n % 8..] == rem[n..]
            && rem[..m] + rem[m..][..n % 8] == rem[..n]
  {
  }

  lemma ExtractedPadding(a: seq<bool>, b: seq<bool>, n: nat)
    requires |a| % 8 == 0 && |b| == n % 8 && |a + b| == n
    ensures n % 8 == 0 ==> PadToByte(a + b) == a
    ensures a + PadToByte(b) == PadToByte(a + b)
  {
    hide Zeros;
    var z := Zeros((8 - |b| % 8) % 8);
    assert |a + b| % 8 == |b| % 8;
    assert a + (b + z) == a + b + z;
    if n % 8 == 0 {
      assert b == [] && z == [] && a + b == a;
    }
  }

  lemma ExtractedPast(rem: seq<bool>, n: nat)
    requires n > |rem| && n % 8 == 0
    ensures n / 8 * 8 == n && (rem + Zeros(n))[..n] == rem + Zeros(n - |rem|)
  {
  }

  /** Whole bytes and the padded rest make up the padded prefix. */
  lemma ExtractedBits(rem: seq<bool>, n: nat)
    ensures var m := n / 8 * 8;
            && (n <= |rem| && n % 8 == 0 ==> (rem + Zeros(m))[..m] == PadToByte(rem[..n]))
            && (n <= |rem| && n % 8 != 0 ==>
                  (rem + Zeros(m))[..m] + PadToByte(rem[m..][..n % 8]) == PadToByte(rem[..n]))
            && (n <= |rem| ==> rem[m..][n % 8..] == rem[n..] && rem[..m] == (rem + Zeros(m))[..m])
            && (n > |rem| && n % 8 == 0 ==> (rem + Zeros(m))[..m] == rem + Zeros(n - |rem|))
  {
    hide *;
    var m := n / 8 * 8;
    if n <= |rem| {
      ExtractedWhole(rem, n);
      ExtractedPadding(rem[..m], rem[m..][..n % 8], n);
    } else if n % 8 == 0 {
      ExtractedPast(rem, n);
    }
  }

  lemma FromBitsSnoc(s: seq<bool>, b: bool)
    ensures FromBits(s + [b]) == 2 * FromBits(s) + (if b then 1 else 0)
  {
    assert (s + [b])[..|s|] == s;
  }

  lemma TrailerRest(n: nat, k: nat)
    requires n > 0 && k < 8 && (n - 1 - k) % 8 == 0
    ensures k == TrailerLength(n) - 1
  {
  }

  lemma NoTrailer(rem: seq<bool>)
    requires rem == [] || !rem[0]
    ensures !IsTrailer(rem)
  {
  }

  lemma TrailerMeans(rem: seq<bool>)
    requires rem != [] && rem[0]
    ensures 1 <= TrailerLength(|rem|) <= 8
    ensures IsTrailer(rem) <==>
            TrailerLength(|rem|) <= |rem| && rem[1..TrailerLength(|rem|)] == Zeros(TrailerLength(|rem|) - 1)
    ensures TrailerLength(|rem|) == 1 ==> IsTrailer(rem)
  {
  }

  lemma SliceOfTail(s: seq<bool>, n: nat)
    requires 1 + n <= |s|
    ensures s[1..][..n] == s[1..1 + n]
  {
  }

  lemma OneBit(rem: seq<bool>)
    requires rem != []
    ensures FromBits(rem[..1]) == 1 <==> rem[0]
  {
    assert rem[..1] == [] + [rem[0]];
    FromBitsSnoc([], rem[0]);
  }

  lemma ZeroBits(s: seq<bool>)
    ensures FromBits(s) == 0 <==> s == Zeros(|s|)
  {
    ToFromBits(s);
    ToBitsZero(|s|);
    FromToBits(0, |s|);
  }

  lemma LastByte(s: seq<bool>, v: nat)
    requires 0 < |s| < 8 && v == FromBits(s)
    ensures v < WORD && ToBits(ToByte(Shl(v, 8 - |s|)), 8) == PadToByte(s)
  {
    hide Zeros, ToBits, FromBits, Pow2, Shl, ToByte;
    Pow2Table();
    Pow2Mono(|s|, 8);
    PadRight(v, s, 8 - |s|);
    var t := s + Zeros(8 - |s|);
    ToFromBits(t);
    assert Shl(v, 8 - |s|) < 256;
    assert ToByte(Shl(v, 8 - |s|)) == Shl(v, 8 - |s|) by { SmallByte(Shl(v, 8 - |s|)); }
  }

  lemma SmallByte(x: Word)
    requires x < 256
    ensures ToByte(x) == x
  {
  }

  lemma {:induction false} ZeroBytes(b: seq<Byte>)
    requires forall i :: 0 <= i < |b| ==> b[i] == 0
    ensures BytesBits(b) == Zeros(8 * |b|)
  {
    if b != [] {
      ZeroBytes(b[1..]);
      ToBitsZero(8);
    }
  }
}

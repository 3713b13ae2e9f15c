/** The look-ahead reader over an input stream, the unit parser built on it, and the
    SEI removal loop, each proved against the functions of AnnexB. */
module ByteStream {
  import opened Bits
  import opened BitStream
  import opened AnnexB

  // ---- bits of the look-ahead word ----

  /** The word holds exactly these bytes, right-aligned. */
  ghost predicate Holds(word: Word, bytes: seq<Byte>) {
    |bytes| <= 4 && ToBits(word, 32) == Zeros(32 - 8 * |bytes|) + BytesBits(bytes)
  }

  lemma HoldsNothing()
    ensures Holds(0, [])
  {
    ToBitsZero(32);
  }

  lemma HoldsOneMore(word: Word, bytes: seq<Byte>, b: Byte)
    requires Holds(word, bytes) && |bytes| < 4
    ensures Holds(Or(Shl(word, 8), b), bytes + [b])
  {
    hide ToBits, BytesBits, Or, Shl, Pow2, Zeros;
    ShlBits(word, 8);
    Pow2Table();
    ToBitsPad(b, 8, 32);
    OrBits(Shl(word, 8), b);
    BytesBitsSnoc(bytes, b);
    var a, t := BytesBits(bytes), ToBits(b, 8);
    var n := 24 - 8 * |bytes|;
    var x, y := ToBits(Shl(word, 8), 32), ToBits(b, 32);
    assert x == Zeros(n) + a + Zeros(8);
    var o := ToBits(Or(Shl(word, 8), b), 32);
    assert x[n..] == a + Zeros(8);
    assert y[n..] == Zeros(8 * |bytes|) + t;
    OrBeside(x, y, o, a, t, n);
    assert o[..n] == Zeros(n);
    assert o == o[..n] + o[n..];
  }

  lemma PeekValue(word: Word, bytes: seq<Byte>, n: nat)
    requires Holds(word, bytes) && n <= |bytes|
    ensures Shr(word, 8 * (|bytes| - n)) == FromBits(BytesBits(bytes[..n]))
  {
    hide ToBits, BytesBits, FromBits, Shr, Pow2, Zeros;
    var x := Shr(word, 8 * (|bytes| - n));
    ShrBits(word, 8 * (|bytes| - n));
    BytesBitsConcat(bytes[..n], bytes[n..]);
    assert bytes[..n] + bytes[n..] == bytes;
    assert ToBits(x, 32) == Zeros(32 - 8 * n) + BytesBits(bytes[..n]);
    Pow2Word();
    SmallFromBits(x, 8 * n, 32);
  }

  /** `word &= ~(0xff << 8 * j)` */
  lemma ClearByte(word: Word, ff: Byte, j: nat)
    requires ff == 255 && j < 4
    ensures forall i :: 0 <= i < 32 ==>
      ToBits(And(word, Not(Shl(ff, 8 * j))), 32)[i] == (ToBits(word, 32)[i] && !(24 - 8 * j <= i < 32 - 8 * j))
  {
    hide ToBits, And, Not, Shl, Pow2, Zeros;
    Pow2Table();
    ByteOnes(ff);
    ToBitsPad(ff, 8, 32);
    ShlBits(ff, 8 * j);
    NotBits(Shl(ff, 8 * j));
    AndBits(word, Not(Shl(ff, 8 * j)));
    var s := ToBits(Shl(ff, 8 * j), 32);
    forall i | 0 <= i < 32
      ensures s[i] == (24 - 8 * j <= i < 32 - 8 * j)
    {
      if i < 32 - 8 * j {
        assert s[i] == ToBits(ff, 32)[i + 8 * j];
      }
    }
  }

  lemma ReadHead(word: Word, bytes: seq<Byte>, ff: Byte)
    requires Holds(word, bytes) && bytes != [] && ff == 255
    ensures ToByte(Shr(word, 8 * (|bytes| - 1))) == bytes[0]
    ensures Holds(And(word, Not(Shl(ff, 8 * (|bytes| - 1)))), bytes[1..])
  {
    hide ToBits, FromBits, Shr, Shl, And, Not, Pow2, ToByte, Zeros;
    var j := |bytes| - 1;
    WordByte(word, j);
    assert ToBits(word, 32)[24 - 8 * j..32 - 8 * j] == ToBits(bytes[0], 8);
    Pow2Table();
    FromToBits(bytes[0], 8);
    FromToBits(ToByte(Shr(word, 8 * j)), 8);
    ClearByte(word, ff, j);
    var x := ToBits(And(word, Not(Shl(ff, 8 * j))), 32);
    var r := Zeros(32 - 8 * j) + BytesBits(bytes[1..]);
    assert BytesBits(bytes) == ToBits(bytes[0], 8) + BytesBits(bytes[1..]);
    hide BytesBits;
    forall i | 0 <= i < 32
      ensures x[i] == r[i]
    {
      if i >= 32 - 8 * j {
        assert ToBits(word, 32)[i] == BytesBits(bytes[1..])[i - (32 - 8 * j)];
      }
    }
  }

  /** Big-endian words compare like their bytes. */
  lemma BigEndianEqual(a: seq<Byte>, b: seq<Byte>)
    requires |a| == |b|
    ensures FromBits(BytesBits(a)) == FromBits(BytesBits(b)) <==> a == b
  {
    ToFromBits(BytesBits(a));
    ToFromBits(BytesBits(b));
    if FromBits(BytesBits(a)) == FromBits(BytesBits(b)) {
      BytesBitsInjective(a, b);
    }
  }

  lemma SmallWord(v: Byte, n: nat)
    requires 1 <= n <= 4
    ensures FromBits(BytesBits(ZeroRun(n - 1) + [v])) == v
  {
    BytesBitsSnoc(ZeroRun(n - 1), v);
    ZeroBytes(ZeroRun(n - 1));
    hide FromBits, ToBits, BytesBits;
    FromBitsPad(ToBits(v, 8), 8 * (n - 1));
    Pow2Table();
    FromToBits(v, 8);
  }

  lemma PrefixValue(b: seq<Byte>)
    requires |b| == 3
    ensures FromBits(BytesBits(b)) == 1 <==> AtPrefix(b)
    ensures FromBits(BytesBits(b)) <= 2 <==> AtStop(b)
  {
    hide FromBits, BytesBits;
    SmallWord(0, 3);
    SmallWord(1, 3);
    SmallWord(2, 3);
    BigEndianEqual(b, ZeroRun(2) + [0]);
    BigEndianEqual(b, ZeroRun(2) + [1]);
    BigEndianEqual(b, ZeroRun(2) + [2]);
    assert AtStop(b) ==> b == ZeroRun(2) + [b[2]];
  }

  lemma LongPrefixValue(b: seq<Byte>)
    requires |b| == 4
    ensures FromBits(BytesBits(b)) == 1 <==> AtLongPrefix(b)
  {
    hide FromBits, BytesBits;
    SmallWord(1, 4);
    BigEndianEqual(b, ZeroRun(3) + [1]);
  }

  // ---- the reader ----

  /** SingleLayerStream together with the istream it reads. */
  class LookAheadStream {
    var input: seq<Byte>        // not yet taken from the istream
    var failed: bool            // the istream has hit its end
    var numFutureBytes: nat
    var futureBytes: Word
    ghost var buffered: seq<Byte>

    ghost predicate Valid()
      reads this
    {
      numFutureBytes == |buffered| && Holds(futureBytes, buffered)
    }

    /** The byte sequence this reader stands for. */
    ghost function Contents(): seq<Byte>
      reads this
    {
      buffered + input
    }

    constructor (bytes: seq<Byte>)
      ensures Valid() && Contents() == bytes && !failed
    {
      input, failed, numFutureBytes, futureBytes, buffered := bytes, false, 0, 0, [];
      HoldsNothing();
    }

    /** istream::get with eofbit in the exception mask. */
    method Get() returns (r: Outcome<Byte>)
      modifies this`input, this`failed
      ensures r.Done? <==> old(input) != []
      ensures r.Done? ==> old(input) == [r.value] + input && failed == old(failed)
      ensures r.Thrown? ==> input == old(input) && failed
    {
      if input == [] {
        failed := true;
        return Thrown;
      }
      r := Done(input[0]);
      input := input[1..];
    }

    method EofBeforeNBytes(n: nat) returns (eof: bool)
      requires Valid() && n <= 4
      modifies this
      ensures Valid() && Contents() == old(Contents())
      ensures eof <==> n > |Contents()|
      ensures !eof ==> numFutureBytes >= n
      ensures failed == (old(failed) || eof)
    {
      hide Holds, Or, Shl;
      if numFutureBytes >= n {
        return false;
      }
      var missing := n - numFutureBytes;
      for i := 0 to missing
        invariant Valid() && Contents() == old(Contents()) && failed == old(failed)
        invariant numFutureBytes + missing - i == n
      {
        var b := Get();
        if b.Thrown? {
          return true;
        }
        ghost var before := buffered;
        HoldsLength(futureBytes, buffered);
        HoldsOneMore(futureBytes, buffered, b.value);
        futureBytes := Or(Shl(futureBytes, 8), b.value);
        numFutureBytes := numFutureBytes + 1;
        buffered := buffered + [b.value];
        assert before + ([b.value] + input) == buffered + input;
      }
      return false;
    }

    /** The next n bytes as a big-endian word; undefined in the source past the end. */
    method PeekBytes(n: nat) returns (v: nat)
      requires Valid() && n <= 4 && n <= |Contents()|
      modifies this
      ensures Valid() && Contents() == old(Contents()) && failed == old(failed)
      ensures v == FromBits(BytesBits(Contents()[..n]))
    {
      hide Holds, Shr, FromBits, BytesBits;
      var eof := EofBeforeNBytes(n);
      PeekValue(futureBytes, buffered, n);
      assert Contents()[..n] == buffered[..n];
      v := Shr(futureBytes, 8 * (numFutureBytes - n));
    }

    method ReadByte() returns (r: Outcome<Byte>)
      requires Valid()
      modifies this
      ensures Valid()
      ensures r.Done? <==> old(Contents()) != []
      ensures r.Done? ==> r.value == old(Contents())[0] && Contents() == old(Contents())[1..] && failed == old(failed)
      ensures r.Thrown? ==> Contents() == [] && failed
    {
      hide Holds, Shr, And, Not, Shl, ToByte;
      if numFutureBytes == 0 {
        r := Get();
        return;
      }
      ReadHead(futureBytes, buffered, 0xff);
      HoldsLength(futureBytes, buffered);
      numFutureBytes := numFutureBytes - 1;
      r := Done(ToByte(Shr(futureBytes, 8 * numFutureBytes)));
      futureBytes := And(futureBytes, Not(Shl(0xff, 8 * numFutureBytes)));
      assert buffered[1..] + input == (buffered + input)[1..];
      buffered := buffered[1..];
    }

    /** Three bytes, as _byteStreamNALUnit reads them. */
    method ReadPrefix() returns (r: Outcome<Word>)
      requires Valid() && |Contents()| >= 3
      modifies this
      ensures Valid() && r.Done? && failed == old(failed)
      ensures r.value == FromBits(BytesBits(old(Contents())[..3])) && Contents() == old(Contents())[3..]
    {
      hide Holds, Or, Shl, FromBits, BytesBits;
      var val: Word := 0;
      ghost var all := Contents();
      HoldsNothing();
      for i := 0 to 3
        invariant Valid() && failed == old(failed) && Contents() == all[i..] && Holds(val, all[..i])
      {
        var b := ReadByte();
        HoldsOneMore(val, all[..i], b.value);
        assert all[..i] + [b.value] == all[..i + 1];
        val := Or(Shl(val, 8), b.value);
      }
      PeekValue(val, all[..3], 3);
      assert all[..3][..3] == all[..3];
      assert Shr(val, 0) == val;
      return Done(val);
    }

    /** The guard of the leading and the trailing loop. */
    method SearchGoesOn() returns (more: bool)
      requires Valid()
      modifies this
      ensures Valid() && Contents() == old(Contents())
      ensures more == !AtStartCode(Contents())
      ensures failed == (old(failed) || (more && |Contents()| < 4))
    {
      hide FromBits, BytesBits, Holds;
      var eof := EofBeforeNBytes(3);
      if !eof {
        var p := PeekBytes(3);
        PrefixValue(Contents()[..3]);
        if p == 1 {
          return false;
        }
      }
      eof := EofBeforeNBytes(4);
      if !eof {
        var p := PeekBytes(4);
        LongPrefixValue(Contents()[..4]);
        if p == 1 {
          return false;
        }
      }
      return true;
    }

    /** The leading and the trailing loop: count zero bytes up to a start code. */
    method SkipZeroBytes() returns (count: nat, ending: Ending)
      requires Valid()
      modifies this
      ensures Valid()
      ensures var r := SkipZeros(old(Contents()));
              count == r.count && ending == r.ending && Contents() == r.rest && failed == (old(failed) || r.failed)
    {
      hide SkipZeros, AtStartCode, Holds;
      ghost var all, failedBefore := Contents(), failed;
      count := 0;
      var more := SearchGoesOn();
      SkipZerosStep(Contents());
      while more
        invariant Valid() && more == !AtStartCode(Contents())
        invariant SkipZeros(all).count == count + SkipZeros(Contents()).count
        invariant SkipZeros(all).ending == SkipZeros(Contents()).ending
        invariant SkipZeros(all).rest == SkipZeros(Contents()).rest
        invariant (failedBefore || SkipZeros(all).failed) == (failed || SkipZeros(Contents()).failed)
        invariant more && |Contents()| < 4 ==> failed
        decreases |Contents()|
      {
        SkipZerosStep(Contents());
        var b := ReadByte();
        if b.Thrown? {
          return count, EndOfFile;
        }
        if b.value != 0 {
          return count, Malformed;
        }
        count := count + 1;
        SkipZerosStep(Contents());
        more := SearchGoesOn();
      }
      SkipZerosStep(Contents());
      ending := Found;
    }

    /** The bytes of the NAL unit itself. */
    method TakeNalBytes() returns (nal: seq<Byte>, found: bool)
      requires Valid()
      modifies this
      ensures Valid()
      ensures var r := TakeNal(old(Contents()));
              nal == r.nal && found == r.found && Contents() == r.rest && failed == (old(failed) || !r.found)
    {
      hide TakeNal, Holds, FromBits, BytesBits;
      ghost var all := Contents();
      nal := [];
      while true
        invariant Valid()
        invariant TakeNal(all).nal == nal + TakeNal(Contents()).nal
        invariant TakeNal(all).found == TakeNal(Contents()).found && TakeNal(all).rest == TakeNal(Contents()).rest
        invariant TakeNal(all).found ==> failed == old(failed)
        invariant old(failed) ==> failed
        decreases |Contents()|
      {
        TakeNalStep(Contents());
        var eof := EofBeforeNBytes(3);
        if !eof {
          var p := PeekBytes(3);
          PrefixValue(Contents()[..3]);
          if p <= 2 {
            return nal, true;
          }
        }
        assert !AtStop(Contents());
        ghost var rest := Contents();
        var b := ReadByte();
        if b.Thrown? {
          return nal, false;
        }
        assert nal + ([b.value] + TakeNal(Contents()).nal) == nal + [b.value] + TakeNal(Contents()).nal;
        nal := nal + [b.value];
      }
    }

    /** byteStreamNALUnit: one unit with its statistics; exceptions of any kind end it early. */
    method ByteStreamNalUnit() returns (unit: ParsedUnit)
      requires Valid()
      modifies this
      ensures Valid()
      ensures var u := ParseUnit(old(Contents()));
              && unit == ParsedUnit(u.nal, u.leading, u.zeroByte, u.prefix, u.trailing, u.Eof())
              && Contents() == u.rest
              && failed == (old(failed) || u.failed)
    {
      hide SkipZeros, TakeNal, Holds, FromBits, BytesBits;
      var leading, ending := SkipZeroBytes();
      if ending != Found {
        return ParsedUnit([], leading, 0, 0, 0, true);
      }
      var zeroByte := 0;
      var p := PeekBytes(3);
      PrefixValue(Contents()[..3]);
      if p != 1 {
        var b := ReadByte();
        zeroByte := 1;
      }
      PrefixValue(Contents()[..3]);
      var prefix := ReadPrefix();
      assert prefix.value == 1;
      var nal, found := TakeNalBytes();
      if !found {
        return ParsedUnit(nal, leading, zeroByte, 3, 0, true);
      }
      var trailing;
      trailing, ending := SkipZeroBytes();
      return ParsedUnit(nal, leading, zeroByte, 3, trailing, ending != Found);
    }
  }

  /** What the caller of byteStreamNALUnit gets to see. */
  datatype ParsedUnit = ParsedUnit(nal: seq<Byte>, leading: nat, zeroByte: nat, prefix: nat, trailing: nat, eof: bool)

  lemma SkipZerosStep(s: seq<Byte>)
    ensures AtStartCode(s) ==> SkipZeros(s) == Skipped(0, [], s, Found, false)
    ensures !AtStartCode(s) && s == [] ==> SkipZeros(s) == Skipped(0, [], [], EndOfFile, true)
    ensures !AtStartCode(s) && s != [] && s[0] != 0 ==> SkipZeros(s) == Skipped(0, [s[0]], s[1..], Malformed, |s| < 4)
    ensures !AtStartCode(s) && s != [] && s[0] == 0 ==>
      var r := SkipZeros(s[1..]);
      SkipZeros(s) == Skipped(r.count + 1, r.bad, r.rest, r.ending, r.failed || |s| < 4)
  {
  }

  lemma TakeNalStep(s: seq<Byte>)
    ensures AtStop(s) ==> TakeNal(s) == Taken([], s, true)
    ensures !AtStop(s) && s == [] ==> TakeNal(s) == Taken([], [], false)
    ensures !AtStop(s) && s != [] ==>
      var r := TakeNal(s[1..]);
      TakeNal(s) == Taken([s[0]] + r.nal, r.rest, r.found)
    ensures TakeNal(s).found ==> |s| >= 3
  {
  }

  lemma HoldsLength(word: Word, bytes: seq<Byte>)
    requires Holds(word, bytes)
    ensures |bytes| <= 4
  {
  }
}

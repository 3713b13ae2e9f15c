/** The two-byte NAL unit header, written and read through the bitstream classes, and the
    layer-id patch of the merge application. */
module NalHeader {
  import opened Bits
  import opened BitStream
  import opened BitRoundTrip

  datatype Header = Header(forbiddenZeroBit: Word, reservedZeroBit: Word, layerId: Word, unitType: Word,
                           temporalId: Word)

  function HeaderOf(b0: Byte, b1: Byte): Header {
    Header(b0 / 128, b0 / 64 % 2, b0 % 64, b1 / 8, (b1 % 8 - 1) % WORD)
  }

  function HeaderBytes(layerId: Word, unitType: Word, temporalId: Word): seq<Byte>
    requires layerId < 64 && unitType < 32 && (temporalId + 1) % WORD < 8
  {
    [layerId, 8 * unitType + (temporalId + 1) % WORD]
  }

  // ---- the fields as bits ----

  function Up(a: nat, n: nat): nat {
    if n == 0 then a else 2 * Up(a, n - 1)
  }

  lemma {:induction false} ToBitsJoin(a: nat, m: nat, b: nat, n: nat)
    requires b < Pow2(n)
    ensures ToBits(Up(a, n) + b, m + n) == ToBits(a, m) + ToBits(b, n)
  {
    if n > 0 {
      ToBitsJoin(a, m, b / 2, n - 1);
      ToBitsStep(Up(a, n) + b, m + n);
      ToBitsStep(b, n);
      hide ToBits;
      assert (Up(a, n) + b) / 2 == Up(a, n - 1) + b / 2 && (Up(a, n) + b) % 2 == b % 2;
    }
  }

  function Fields(f: Word, r: Word, l: Word, t: Word, d: Word): seq<Element> {
    [Element(f, 1), Element(r, 1), Element(l, 6), Element(t, 5), Element(d, 3)]
  }

  lemma UpValues(a: nat)
    ensures Up(a, 1) == 2 * a && Up(a, 3) == 8 * a && Up(a, 6) == 64 * a
  {
    assert Up(a, 3) == 2 * Up(a, 2) && Up(a, 2) == 2 * Up(a, 1);
    assert Up(a, 6) == 2 * Up(a, 5) && Up(a, 5) == 2 * Up(a, 4) && Up(a, 4) == 2 * Up(a, 3);
  }

  lemma FirstByteBits(f: Word, r: Word, l: Word)
    requires f < 2 && r < 2 && l < 64
    ensures ToBits(128 * f + 64 * r + l, 8) == ToBits(f, 1) + ToBits(r, 1) + ToBits(l, 6)
  {
    hide ToBits, Up, Pow2;
    Pow2Table();
    UpValues(f);
    UpValues(2 * f + r);
    ToBitsJoin(f, 1, r, 1);
    ToBitsJoin(2 * f + r, 2, l, 6);
  }

  lemma SecondByteBits(t: Word, d: Word)
    requires t < 32 && d < 8
    ensures ToBits(8 * t + d, 8) == ToBits(t, 5) + ToBits(d, 3)
  {
    hide ToBits, Up, Pow2;
    Pow2Table();
    UpValues(t);
    ToBitsJoin(t, 5, d, 3);
  }

  lemma TwoBytes(b0: Byte, b1: Byte)
    ensures BytesBits([b0, b1]) == ToBits(b0, 8) + ToBits(b1, 8)
  {
    hide ToBits;
    assert [b0, b1][1..] == [b1] && [b1][1..] == [];
    assert BytesBits([b1]) == ToBits(b1, 8) + BytesBits([b1][1..]);
  }

  lemma FieldsBits(f: Word, r: Word, l: Word, t: Word, d: Word)
    requires f < 2 && r < 2 && l < 64 && t < 32 && d < 8
    ensures BytesBits([128 * f + 64 * r + l, 8 * t + d])
         == ToBits(f, 1) + ToBits(r, 1) + ToBits(l, 6) + ToBits(t, 5) + ToBits(d, 3)
  {
    hide ToBits, BytesBits;
    TwoBytes(128 * f + 64 * r + l, 8 * t + d);
    FirstByteBits(f, r, l);
    SecondByteBits(t, d);
  }

  // ---- writing and reading ----

  method WriteNalUnitHeader(layerId: Word, unitType: Word, temporalId: Word) returns (r: Outcome<seq<Byte>>)
    ensures r.Done? <==> layerId <= 55 && unitType < 32 && (temporalId + 1) % WORD < 8
    ensures r.Done? ==> r.value == HeaderBytes(layerId, unitType, temporalId)
  {
    Pow2Table();
    hide ToBits, BytesBits, Pow2;
    var bs := new OutputBitstream();
    var w := bs.Write(0, 1);
    w := bs.Write(0, 1);
    if layerId > 55 {
      return Thrown;
    }
    w := bs.Write(layerId, 6);
    w := bs.Write(unitType, 5);
    if w.Thrown? {
      return Thrown;
    }
    w := bs.Write((temporalId + 1) % WORD, 3);
    if w.Thrown? {
      return Thrown;
    }
    ghost var bytes := HeaderBytes(layerId, unitType, temporalId);
    FieldsBits(0, 0, layerId, unitType, (temporalId + 1) % WORD);
    assert bs.Contents() == BytesBits(bytes);
    assert |bs.Contents()| == 16 && bs.numHeldBits == 0;
    BytesBitsInjective(bs.fifo, bytes);
    return Done(bs.fifo);
  }

  /** One field; `coded` says that the stream is known to start with these elements. */
  method ReadField(bs: InputBitstream, width: nat, ghost coded: bool, ghost es: seq<Element>, ghost rest: seq<bool>)
    returns (r: Outcome<nat>)
    requires bs.Valid() && width <= 32
    requires coded ==> es != [] && es[0].Fits() && es[0].width == width && bs.Remaining() == Encode(es) + rest
    modifies bs
    ensures bs.Valid()
    ensures r.Done? <==> width <= old(|bs.Remaining()|)
    ensures r.Done? ==> |bs.Remaining()| == old(|bs.Remaining()|) - width
    ensures coded ==> r.Done? && r.value == es[0].value && bs.Remaining() == Encode(es[1..]) + rest
  {
    hide Encode, FromBits;
    if coded {
      ReadsFirst(es, rest);
    }
    r := bs.Read(width);
  }

  /** read2: fails on units of fewer than two bytes, which no caller catches. */
  method Read2(nal: seq<Byte>) returns (r: Outcome<Header>)
    ensures r.Done? <==> |nal| >= 2
    ensures r.Done? ==> r.value == HeaderOf(nal[0], nal[1])
  {
    hide Encode, BytesBits, FromBits, Pow2;
    ghost var coded := |nal| >= 2;
    ghost var es, rest := [], [];
    if coded {
      es, rest := HeaderFields(nal[0], nal[1]), BytesBits(nal[2..]);
      HeaderIsCoded(nal);
      FieldsFit(nal[0], nal[1]);
      assert es[1..] == [es[1], es[2], es[3], es[4]] && es[1..][1..] == [es[2], es[3], es[4]];
    }
    var bs := new InputBitstream(nal);
    var forbidden := ReadField(bs, 1, coded, es, rest);
    if forbidden.Thrown? { return Thrown; }
    var reserved := ReadField(bs, 1, coded, if coded then es[1..] else es, rest);
    if reserved.Thrown? { return Thrown; }
    var layerId := ReadField(bs, 6, coded, if coded then es[1..][1..] else es, rest);
    if layerId.Thrown? { return Thrown; }
    var unitType := ReadField(bs, 5, coded, if coded then es[1..][1..][1..] else es, rest);
    if unitType.Thrown? { return Thrown; }
    var plus1 := ReadField(bs, 3, coded, if coded then es[1..][1..][1..][1..] else es, rest);
    if plus1.Thrown? { return Thrown; }
    return Done(Header(forbidden.value, reserved.value, layerId.value, unitType.value, (plus1.value - 1) % WORD));
  }

  function HeaderFields(b0: Byte, b1: Byte): seq<Element> {
    Fields(b0 / 128, b0 / 64 % 2, b0 % 64, b1 / 8, b1 % 8)
  }

  lemma ByteParts(b: Byte)
    ensures 128 * (b / 128) + 64 * (b / 64 % 2) + b % 64 == b && 8 * (b / 8) + b % 8 == b
  {
  }

  lemma HeaderFieldsEncode(b0: Byte, b1: Byte)
    ensures Encode(HeaderFields(b0, b1)) == BytesBits([b0, b1])
  {
    hide Encode, BytesBits;
    ByteParts(b0);
    ByteParts(b1);
    FieldsEncode(b0 / 128, b0 / 64 % 2, b0 % 64, b1 / 8, b1 % 8);
  }

  lemma HeaderIsCoded(nal: seq<Byte>)
    requires |nal| >= 2
    ensures BytesBits(nal) == Encode(HeaderFields(nal[0], nal[1])) + BytesBits(nal[2..])
  {
    hide Encode, BytesBits, HeaderFields;
    HeaderFieldsEncode(nal[0], nal[1]);
    BytesBitsConcat([nal[0], nal[1]], nal[2..]);
    assert [nal[0], nal[1]] + nal[2..] == nal;
  }

  lemma FieldsFit(b0: Byte, b1: Byte)
    ensures var es := HeaderFields(b0, b1);
            es[0].Fits() && es[1].Fits() && es[2].Fits() && es[3].Fits() && es[4].Fits()
  {
    Pow2Table();
  }

  lemma FieldsEncode(f: Word, r: Word, l: Word, t: Word, d: Word)
    requires f < 2 && r < 2 && l < 64 && t < 32 && d < 8
    ensures Encode(Fields(f, r, l, t, d)) == BytesBits([128 * f + 64 * r + l, 8 * t + d])
  {
    hide ToBits, BytesBits, Encode;
    FieldsBits(f, r, l, t, d);
    EncodeEmpty([]);
    var a, b, c, e := Element(f, 1), Element(r, 1), Element(l, 6), Element(t, 5);
    EncodeSnoc([], a);
    EncodeSnoc([a], b);
    EncodeSnoc([a, b], c);
    EncodeSnoc([a, b, c], e);
    EncodeSnoc([a, b, c, e], Element(d, 3));
    assert [] + [a] == [a] && [a] + [b] == [a, b] && [a, b] + [c] == [a, b, c] && [a, b, c] + [e] == [a, b, c, e];
    assert [a, b, c, e] + [Element(d, 3)] == Fields(f, r, l, t, d);
    assert [] + ToBits(f, 1) == ToBits(f, 1);
  }

  // ---- properties ----

  /** What the writer writes is what the reader reads. */
  lemma HeaderRoundTrip(layerId: Word, unitType: Word, temporalId: Word)
    requires layerId < 64 && unitType < 32 && (temporalId + 1) % WORD < 8
    ensures var b := HeaderBytes(layerId, unitType, temporalId);
            HeaderOf(b[0], b[1]) == Header(0, 0, layerId, unitType, temporalId)
  {
  }

  /** The byte the merge application overwrites. */
  function PatchLayerId(nal: seq<Byte>, layerId: Byte): seq<Byte>
    requires |nal| >= 2
  {
    nal[1 := ((layerId + 1) * 2) % 256]
  }

  /** The patch never reaches the layer id, which sits in the first byte; it replaces the unit
      type and the temporal id, and leaves them alone only if the second byte already has the
      patched value. */
  lemma PatchEffect(nal: seq<Byte>, layerId: Byte)
    requires |nal| >= 2
    ensures var h, p := HeaderOf(nal[0], nal[1]), PatchLayerId(nal, layerId);
            var q := HeaderOf(p[0], p[1]);
            && q.layerId == h.layerId
            && q.unitType == (layerId + 1) / 4 % 32
            && (q == h <==> nal[1] == (layerId + 1) * 2 % 256)
            && (q.layerId == layerId <==> h.layerId == layerId)
  {
    PatchedType(layerId);
    SecondByteFields(nal[0], nal[1], (layerId + 1) * 2 % 256);
  }

  lemma PatchedType(layerId: Byte)
    ensures (layerId + 1) * 2 % 256 / 8 == (layerId + 1) / 4 % 32
  {
    var x := layerId + 1;
    assert x == 256 || x * 2 % 256 == if x < 128 then 2 * x else 2 * x - 256;
  }

  lemma SecondByteFields(b0: Byte, b: Byte, c: Byte)
    ensures HeaderOf(b0, b) == HeaderOf(b0, c) <==> b == c
  {
    assert b == 8 * (b / 8) + b % 8 && c == 8 * (c / 8) + c % 8;
  }

  /** A picture header (type 19) merged as layer 1 turns into a trailing slice (type 0). */
  lemma PatchExample()
    ensures var nal := HeaderBytes(1, 19, 0);
            var p := PatchLayerId(nal, 1);
            HeaderOf(nal[0], nal[1]).unitType == 19 && HeaderOf(p[0], p[1]).unitType == 0
  {
  }
}

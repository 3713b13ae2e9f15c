/** What the two bitstream classes promise together: whatever was written is read back,
    and a spliced substream can be cut out again. */
module BitRoundTrip {
  import opened Bits
  import opened BitStream

  /** A syntax element: a value and the number of bits it is coded with. */
  datatype Element = Element(value: Word, width: nat) {
    predicate Fits() {
      width <= 32 && value < Pow2(width)
    }
  }

  function Encode(es: seq<Element>): seq<bool> {
    if es == [] then [] else ToBits(es[0].value, es[0].width) + Encode(es[1..])
  }

  lemma {:induction false} EncodeSnoc(es: seq<Element>, e: Element)
    ensures Encode(es + [e]) == Encode(es) + ToBits(e.value, e.width)
  {
    if es != [] {
      EncodeSnoc(es[1..], e);
      assert (es + [e])[1..] == es[1..] + [e];
    }
  }

  /** Fixed-width codes can be cut out of the stream one after the other. */
  lemma ReadsFirst(es: seq<Element>, rest: seq<bool>)
    requires es != [] && es[0].Fits()
    ensures var s := Encode(es) + rest;
            && es[0].width <= |s|
            && FromBits(s[..es[0].width]) == es[0].value
            && s[es[0].width..] == Encode(es[1..]) + rest
  {
    var t := ToBits(es[0].value, es[0].width);
    FromToBits(es[0].value, es[0].width);
    assert Encode(es) + rest == t + (Encode(es[1..]) + rest);
  }

  method WriteElements(es: seq<Element>) returns (output: OutputBitstream)
    requires forall e :: e in es ==> e.Fits()
    ensures fresh(output) && output.Valid() && output.Contents() == Encode(es)
  {
    hide *;
    output := new OutputBitstream();
    EncodeEmpty(es[..0]);
    for i := 0 to |es|
      invariant output.Valid() && fresh(output) && output.Contents() == Encode(es[..i])
    {
      FitsInOrder(es, i);
      EncodeSnoc(es[..i], es[i]);
      assert es[..i] + [es[i]] == es[..i + 1];
      var r := output.Write(es[i].value, es[i].width);
    }
    assert es[..|es|] == es;
  }

  lemma FitsInOrder(es: seq<Element>, i: nat)
    requires i < |es| && forall e :: e in es ==> e.Fits()
    ensures es[i].Fits() && es[i].width <= 32 && es[i].value < Pow2(es[i].width)
  {
    hide Pow2;
    assert es[i] in es;
  }

  method ReadElements(es: seq<Element>, input: InputBitstream, ghost tail: seq<bool>) returns (values: seq<nat>)
    requires forall e :: e in es ==> e.Fits()
    requires input.Valid() && input.Remaining() == Encode(es) + tail
    modifies input
    ensures input.Valid() && input.Remaining() == tail
    ensures |values| == |es| && forall i :: 0 <= i < |es| ==> values[i] == es[i].value
  {
    hide *;
    values := [];
    assert es[0..] == es;
    for i := 0 to |es|
      invariant input.Valid() && input.Remaining() == Encode(es[i..]) + tail
      invariant |values| == i && forall j :: 0 <= j < i ==> values[j] == es[j].value
    {
      FitsInOrder(es, i);
      ReadsFirst(es[i..], tail);
      assert es[i..][1..] == es[i + 1..];
      var r := input.Read(es[i].width);
      values := values + [r.value];
    }
    EncodeEmpty(es[|es|..]);
    assert [] + tail == tail;
  }

  /** Write any elements, align, and read them back with the same widths. */
  method WriteThenRead(es: seq<Element>) returns (values: seq<nat>, trailer: Outcome<nat>, bitsLeft: nat)
    requires forall e :: e in es ==> e.Fits()
    ensures |values| == |es| && forall i :: 0 <= i < |es| ==> values[i] == es[i].value
    ensures trailer == Done(8 - |Encode(es)| % 8)
    ensures bitsLeft == 0
  {
    hide *;
    var output := WriteElements(es);
    output.WriteByteAlignment();
    ghost var tail := Trailer(|Encode(es)|);
    var input := new InputBitstream(output.fifo);
    values := ReadElements(es, input, tail);
    TrailerIsTrailer(|Encode(es)|);
    trailer := input.ReadByteAlignment();
    bitsLeft := input.GetNumBitsLeft();
  }

  lemma EncodeEmpty(es: seq<Element>)
    requires es == []
    ensures Encode(es) == []
  {
  }

  lemma TrailerIsTrailer(n: nat)
    ensures |Trailer(n)| == 8 - n % 8 == TrailerLength(|Trailer(n)|) && IsTrailer(Trailer(n))
    ensures |Trailer(n)| < WORD && |Trailer(n)[8 - n % 8..]| % WORD == 0
  {
  }

  /** Splice b onto a at any alignment; cutting at the seam gives both back, padded to bytes. */
  method SpliceThenExtract(a: OutputBitstream, b: OutputBitstream)
    returns (first: InputBitstream, second: InputBitstream)
    requires a.Valid() && b.Valid() && a != b
    requires |a.Contents()| < WORD && |b.Contents()| < WORD
    modifies a
    ensures first.Valid() && first.Remaining() == PadToByte(old(a.Contents()))
    ensures second.Valid() && second.Remaining() == PadToByte(b.Contents())
  {
    hide ToBits, BytesBits, Trailer, PadToByte;
    var n, m := a.GetNumberOfWrittenBits(), b.GetNumberOfWrittenBits();
    ghost var x, y := a.Contents(), b.Contents();
    a.AddSubstream(b);
    a.WriteByteAlignment();
    first, second := CutTwice(a.fifo, n, m, x, y, Trailer(|x + y|));
  }

  method CutTwice(bytes: seq<Byte>, n: nat, m: nat, ghost x: seq<bool>, ghost y: seq<bool>, ghost t: seq<bool>)
    returns (first: InputBitstream, second: InputBitstream)
    requires BytesBits(bytes) == x + y + t && n == |x| && m == |y|
    ensures first.Valid() && first.Remaining() == PadToByte(x)
    ensures second.Valid() && second.Remaining() == PadToByte(y)
  {
    hide ToBits, BytesBits, PadToByte;
    var input := new InputBitstream(bytes);
    Seam(x, y, t);
    var r1 := input.ExtractSubstream(n);
    first := r1.value;
    label Mid:
    assert input.Remaining() == y + t;
    assert first.Remaining() == PadToByte(x);
    var r2 := input.ExtractSubstream(m);
    second := r2.value;
    assert first != input && first.Remaining() == old@Mid(first.Remaining());
  }

  lemma Seam(x: seq<bool>, y: seq<bool>, t: seq<bool>)
    ensures |x + y + t| >= |x| && (x + y + t)[..|x|] == x && (x + y + t)[|x|..] == y + t
    ensures |y + t| >= |y| && (y + t)[..|y|] == y
  {
  }
}

/** Escaping and framing together: a list of NAL units written the way the encoder writes them
    is delimited, un-escaped and recovered by the decoder's parser. */
module Transport {
  import opened Bits
  import opened Nal
  import opened AnnexB
  import NalHeader

  /** A NAL unit before escaping: its header and its payload. */
  datatype Packet = Packet(longStartCode: bool, b0: Byte, b1: Byte, rbsp: seq<Byte>)

  /** writeNaluWithHeader: the header goes out as it is, the payload escaped. */
  function NalBytes(p: Packet): seq<Byte> {
    [p.b0, p.b1] + Escape(p.rbsp)
  }

  /** writeAnnexB: a start code of three or four bytes in front of every unit. */
  function Frames(ps: seq<Packet>): seq<Framed> {
    seq(|ps|, i requires 0 <= i < |ps| => Framed(if ps[i].longStartCode then 3 else 2, NalBytes(ps[i])))
  }

  lemma {:induction false} HeaderStaysClean(b0: Byte, b1: Byte, t: seq<Byte>)
    requires b1 != 0 && NoStartCode(t)
    ensures NoStartCode([b0, b1] + t)
  {
    var s := [b0, b1] + t;
    assert s[2..] == t;
    CleanExtend(s, 2);
  }

  /** A unit whose second header byte is not zero can be framed. */
  lemma PacketIsDelimitable(p: Packet)
    requires p.b1 != 0
    ensures Delimitable(NalBytes(p))
  {
    EscapedIsClean(p.rbsp);
    HeaderStaysClean(p.b0, p.b1, Escape(p.rbsp));
    hide Escape;
    if p.rbsp == [] {
      assert NalBytes(p) == [p.b0, p.b1] by { EscapeEmpty(); }
    }
  }

  lemma EscapeEmpty()
    ensures Escape([]) == []
  {
  }

  lemma UnescapeHeader(b0: Byte, b1: Byte, e: seq<Byte>)
    requires b1 != 0 && UnescapeFrom(e, 0, 2).Done?
    ensures Unescape([b0, b1] + e).Done?
    ensures Unescape([b0, b1] + e).value.bytes == [b0, b1] + UnescapeFrom(e, 0, 2).value.bytes
  {
    hide UnescapeFrom;
    UnescapePlain(b1, e, if b0 == 0 then 1 else 0, 1);
    UnescapePlain(b0, [b1] + e, 0, 0);
    assert [b0, b1] + e == [b0] + ([b1] + e);
    var u := UnescapeFrom(e, 0, 2).value.bytes;
    assert [b0] + ([b1] + u) == [b0, b1] + u;
  }

  /** Un-escaping the whole unit gives its header and payload back exactly when the payload
      ends in an even number of zero bytes. */
  lemma UnescapePacket(p: Packet)
    requires p.b1 != 0
    ensures Unescape(NalBytes(p)).Done?
    ensures Unescape(NalBytes(p)).value.bytes == [p.b0, p.b1] + p.rbsp <==> TrailingZeros(p.rbsp) % 2 == 0
  {
    hide UnescapeFrom, EscapeFrom, ZerosAfter, TrailingZeros, Hiding;
    var e := Escape(p.rbsp);
    UnescapeAfterEscape(p.rbsp, 0, 2);
    ZerosAfterIsParity(p.rbsp);
    UnescapeHeader(p.b0, p.b1, e);
    var u := UnescapeFrom(e, 0, 2).value.bytes;
    assert ([p.b0, p.b1] + u)[2..] == u && ([p.b0, p.b1] + p.rbsp)[2..] == p.rbsp;
  }

  lemma {:induction false} StripKeepsHeader(h: seq<Byte>, s: seq<Byte>)
    requires h != [] && h[|h| - 1] != 0
    ensures StripZeros(h + s) == h + StripZeros(s)
  {
    if s == [] {
      assert h + s == h;
    } else {
      var init := s[..|s| - 1];
      StripKeepsHeader(h, init);
      assert (h + s)[..|h + s| - 1] == h + init;
    }
  }

  /** A written unit whose reserved bit is zero is read back without the zeros its payload ends in, whatever its
      type, and the search for them stays inside the buffer. */
  lemma ReadBackStripped(p: Packet)
    requires p.b1 != 0 && p.b0 < 64 && TrailingZeros(p.rbsp) % 2 == 0
    ensures Unescape(NalBytes(p)).Done? && TakenForVcl(NalBytes(p)[0])
    ensures !AllZero(Unescape(NalBytes(p)).value.bytes)
    ensures StripZeros(Unescape(NalBytes(p)).value.bytes) == [p.b0, p.b1] + StripZeros(p.rbsp)
  {
    hide Unescape, StripZeros, TrailingZeros, Escape;
    UnescapePacket(p);
    StripKeepsHeader([p.b0, p.b1], p.rbsp);
    assert Unescape(NalBytes(p)).value.bytes[1] != 0;
  }

  /** Encoder to decoder: every unit arrives, in order, and un-escapes to its own header and
      payload, whatever the payloads contain. */
  lemma StreamRoundTrip(ps: seq<Packet>)
    requires ps != [] && forall i :: 0 <= i < |ps| ==> ps[i].b1 != 0 && TrailingZeros(ps[i].rbsp) % 2 == 0
    ensures var us := ParseAll(Emit(Frames(ps)));
            && |us| == |ps|
            && forall i :: 0 <= i < |ps| ==>
              && us[i].Eof() == (i == |ps| - 1)
              && Unescape(us[i].nal).Done?
              && Unescape(us[i].nal).value.bytes == [ps[i].b0, ps[i].b1] + ps[i].rbsp
  {
    hide Unescape, NalBytes, ParseAll, Emit, TrailingZeros;
    var fs := Frames(ps);
    forall i | 0 <= i < |ps|
      ensures Delimitable(fs[i].nal) && fs[i].zeros >= 2
    {
      PacketIsDelimitable(ps[i]);
    }
    FramingRoundTrip(fs);
    forall i | 0 <= i < |ps|
      ensures Unescape(NalBytes(ps[i])).Done?
      ensures Unescape(NalBytes(ps[i])).value.bytes == [ps[i].b0, ps[i].b1] + ps[i].rbsp
    {
      UnescapePacket(ps[i]);
    }
  }

  /** A packet with the header the encoder writes for these fields. */
  ghost predicate Headed(p: Packet, h: NalHeader.Header) {
    && h.forbiddenZeroBit == 0 && h.reservedZeroBit == 0
    && h.layerId < 64 && h.unitType < 32 && 0 < (h.temporalId + 1) % WORD < 8
    && [p.b0, p.b1] == NalHeader.HeaderBytes(h.layerId, h.unitType, h.temporalId)
  }

  lemma HeadedPacket(p: Packet, h: NalHeader.Header)
    requires Headed(p, h)
    ensures p.b1 != 0 && NalHeader.HeaderOf(p.b0, p.b1) == h
  {
    NalHeader.HeaderRoundTrip(h.layerId, h.unitType, h.temporalId);
    var b := NalHeader.HeaderBytes(h.layerId, h.unitType, h.temporalId);
    assert b[0] == [p.b0, p.b1][0] && b[1] == [p.b0, p.b1][1];
  }

  /** Header fields and payloads written, escaped, framed, parsed, un-escaped and split again are the same. */
  lemma FieldsRoundTrip(ps: seq<Packet>, hs: seq<NalHeader.Header>)
    requires ps != [] && |hs| == |ps|
    requires forall i :: 0 <= i < |ps| ==> Headed(ps[i], hs[i]) && TrailingZeros(ps[i].rbsp) % 2 == 0
    ensures var us := ParseAll(Emit(Frames(ps)));
            && |us| == |ps|
            && forall i :: 0 <= i < |ps| ==>
              && Unescape(us[i].nal).Done?
              && var bytes := Unescape(us[i].nal).value.bytes;
                 |bytes| >= 2 && NalHeader.HeaderOf(bytes[0], bytes[1]) == hs[i] && bytes[2..] == ps[i].rbsp
  {
    hide Unescape, ParseAll, Emit, Frames, TrailingZeros, Headed, NalHeader.HeaderOf;
    forall i | 0 <= i < |ps|
      ensures ps[i].b1 != 0 && NalHeader.HeaderOf(ps[i].b0, ps[i].b1) == hs[i]
    {
      HeadedPacket(ps[i], hs[i]);
    }
    StreamRoundTrip(ps);
    var us := ParseAll(Emit(Frames(ps)));
    forall i | 0 <= i < |ps|
      ensures var bytes := Unescape(us[i].nal).value.bytes;
              |bytes| >= 2 && NalHeader.HeaderOf(bytes[0], bytes[1]) == hs[i] && bytes[2..] == ps[i].rbsp
    {
      assert ([ps[i].b0, ps[i].b1] + ps[i].rbsp)[2..] == ps[i].rbsp;
    }
  }
}

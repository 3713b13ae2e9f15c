/** The SEI removal application: parse a stream, drop units by type and number, write the rest. */
module SeiRemoval {
  import opened Bits
  import opened BitStream
  import opened AnnexB
  import opened ByteStream
  import NalHeader

  const NAL_UNIT_PREFIX_SEI := 23
  const NAL_UNIT_SUFFIX_SEI := 24

  datatype Config = Config(discardPrefixSeis: bool, discardSuffixSeis: bool,
                           numNalUnitsToSkip: int, numNalUnitsToWrite: int)

  /** bWrite for the unitCnt-th non-empty unit. */
  predicate Writes(cfg: Config, unitType: nat, unitCnt: nat) {
    && (!cfg.discardSuffixSeis || unitType != NAL_UNIT_SUFFIX_SEI)
    && (!cfg.discardPrefixSeis || unitType != NAL_UNIT_PREFIX_SEI)
    && unitCnt >= cfg.numNalUnitsToSkip
    && (cfg.numNalUnitsToWrite < 0 || unitCnt <= cfg.numNalUnitsToWrite)
  }

  function UnitType(nal: seq<Byte>): nat {
    if |nal| >= 2 then nal[1] / 8 else 0
  }

  // ---- the specification ----

  /** The payloads to keep, numbered on from `unitCnt`. */
  function KeptPayloads(ps: seq<seq<Byte>>, unitCnt: nat, cfg: Config): seq<seq<Byte>> {
    if ps == [] then []
    else (if Writes(cfg, UnitType(ps[0]), unitCnt + 1) then [ps[0]] else []) + KeptPayloads(ps[1..], unitCnt + 1, cfg)
  }

  function KeepMask(us: seq<Unit>, unitCnt: nat, cfg: Config): seq<bool> {
    if us == [] then []
    else if us[0].nal == [] then [false] + KeepMask(us[1..], unitCnt, cfg)
    else [Writes(cfg, UnitType(us[0].nal), unitCnt + 1)] + KeepMask(us[1..], unitCnt + 1, cfg)
  }

  /** No unit is too short for its header. */
  predicate Readable(us: seq<Unit>) {
    forall i :: 0 <= i < |us| ==> |us[i].nal| != 1
  }

  lemma {:induction false} MaskIsChoice(us: seq<Unit>, unitCnt: nat, cfg: Config)
    requires forall i :: 0 <= i < |us| ==> us[i].nal != [] ==> us[i].prefix == 3
    ensures Choice(us, KeepMask(us, unitCnt, cfg))
  {
    if us != [] {
      MaskIsChoice(us[1..], if us[0].nal == [] then unitCnt else unitCnt + 1, cfg);
    }
  }

  lemma {:induction false} ParsedPrefixes(s: seq<Byte>)
    ensures forall i :: 0 <= i < |ParseAll(s)| ==> ParseAll(s)[i].nal != [] ==> ParseAll(s)[i].prefix == 3
    decreases |s|
  {
    ParsedShape(s);
    hide ParseUnit;
    var u := ParseUnit(s);
    if !u.failed {
      ParseProgress(s);
      ParsedPrefixes(u.rest);
    }
  }

  /** What is written from here on. */
  ghost function Output(s: seq<Byte>, failed: bool, unitCnt: nat, cfg: Config): seq<Byte> {
    if failed then []
    else
      var us := ParseAll(s);
      ParsedPrefixes(s);
      MaskIsChoice(us, unitCnt, cfg);
      Emit(Reframe(us, KeepMask(us, unitCnt, cfg)))
  }

  ghost predicate ReadableFrom(s: seq<Byte>, failed: bool) {
    failed || Readable(ParseAll(s))
  }

  ghost function WrittenFor(u: Unit, unitCnt: nat, cfg: Config): seq<Byte> {
    if u.nal != [] && u.prefix == 3 && Writes(cfg, UnitType(u.nal), unitCnt + 1)
    then ZeroRun(FrameOf(u).zeros) + [1] + u.nal
    else []
  }

  lemma OutputEnd(s: seq<Byte>, unitCnt: nat, cfg: Config)
    ensures Output(s, true, unitCnt, cfg) == []
  {
  }

  lemma OutputIs(s: seq<Byte>, unitCnt: nat, cfg: Config)
    ensures var us := ParseAll(s);
            && Choice(us, KeepMask(us, unitCnt, cfg))
            && Output(s, false, unitCnt, cfg) == Emit(Reframe(us, KeepMask(us, unitCnt, cfg)))
  {
    hide ParseAll, KeepMask, Emit;
    ParsedPrefixes(s);
    MaskIsChoice(ParseAll(s), unitCnt, cfg);
  }

  /** What follows a unit. */
  ghost function Following(u: Unit): seq<Unit> {
    if u.failed then [] else ParseAll(u.rest)
  }

  lemma FollowingIs(u: Unit, unitCnt: nat, cfg: Config)
    ensures var us := Following(u);
            && Choice(us, KeepMask(us, unitCnt, cfg))
            && Output(u.rest, u.failed, unitCnt, cfg) == Emit(Reframe(us, KeepMask(us, unitCnt, cfg)))
  {
    hide ParseAll, Emit;
    if u.failed {
      EmitNothing([]);
      OutputEnd(u.rest, unitCnt, cfg);
    } else {
      OutputIs(u.rest, unitCnt, cfg);
    }
  }

  lemma ParsedIs(s: seq<Byte>)
    ensures ParseAll(s) == [ParseUnit(s)] + Following(ParseUnit(s))
  {
    hide ParseUnit;
  }

  lemma MaskOfMore(u: Unit, us: seq<Unit>, unitCnt: nat, cfg: Config)
    ensures var next := if u.nal == [] then unitCnt else unitCnt + 1;
            KeepMask([u] + us, unitCnt, cfg)
            == [u.nal != [] && Writes(cfg, UnitType(u.nal), unitCnt + 1)] + KeepMask(us, next, cfg)
  {
    hide Writes, UnitType;
    assert ([u] + us)[1..] == us;
  }

  /** What is emitted for a unit and those after it. */
  lemma EmitMore(u: Unit, us: seq<Unit>, keep: bool, mask: seq<bool>)
    requires Choice([u] + us, [keep] + mask) && Choice(us, mask)
    ensures keep ==> u.nal != [] && u.prefix == 3
    ensures Emit(Reframe([u] + us, [keep] + mask)) ==
            (if keep then ZeroRun(FrameOf(u).zeros) + [1] + u.nal else []) + Emit(Reframe(us, mask))
  {
    hide Emit, ZeroRun;
    assert ([u] + us)[1..] == us && ([keep] + mask)[1..] == mask && ([keep] + mask)[0] == keep && ([u] + us)[0] == u;
    var fs, gs := Reframe([u] + us, [keep] + mask), Reframe(us, mask);
    if keep {
      assert fs == [FrameOf(u)] + gs && fs[1..] == gs;
      EmitStep(fs);
    } else {
      assert fs == gs;
    }
  }

  lemma WrittenIs(u: Unit, unitCnt: nat, cfg: Config, keep: bool)
    requires keep <==> u.nal != [] && Writes(cfg, UnitType(u.nal), unitCnt + 1)
    requires keep ==> u.prefix == 3
    ensures WrittenFor(u, unitCnt, cfg) == if keep then ZeroRun(FrameOf(u).zeros) + [1] + u.nal else []
  {
  }

  lemma OutputStep(s: seq<Byte>, unitCnt: nat, cfg: Config)
    ensures var u := ParseUnit(s);
            var next := if u.nal == [] then unitCnt else unitCnt + 1;
            Output(s, false, unitCnt, cfg) == WrittenFor(u, unitCnt, cfg) + Output(u.rest, u.failed, next, cfg)
  {
    hide *;
    var u := ParseUnit(s);
    var us, next := Following(u), if u.nal == [] then unitCnt else unitCnt + 1;
    var keep := u.nal != [] && Writes(cfg, UnitType(u.nal), unitCnt + 1);
    OutputIs(s, unitCnt, cfg);
    ParsedIs(s);
    MaskOfMore(u, us, unitCnt, cfg);
    FollowingIs(u, next, cfg);
    EmitMore(u, us, keep, KeepMask(us, next, cfg));
    WrittenIs(u, unitCnt, cfg, keep);
  }

  lemma ReadableStep(s: seq<Byte>)
    ensures ReadableFrom(s, false) <==> |ParseUnit(s).nal| != 1 && ReadableFrom(ParseUnit(s).rest, ParseUnit(s).failed)
  {
    var us, u := ParseAll(s), ParseUnit(s);
    hide ParseUnit;
    if !u.failed {
      var tail := ParseAll(u.rest);
      assert us == [u] + tail;
      if Readable(us) {
        forall i | 0 <= i < |tail|
          ensures |tail[i].nal| != 1
        {
          assert tail[i] == us[i + 1];
        }
      }
    } else {
      assert us == [u];
    }
  }

  // ---- the application ----

  method WriteUnit(unit: ParsedUnit) returns (out: seq<Byte>)
    requires unit.prefix == 3
    ensures out == ZeroRun(unit.leading + unit.zeroByte + unit.prefix - 1) + [1] + unit.nal
  {
    var numZeros := unit.leading + unit.zeroByte + unit.prefix - 1;
    out := [];
    for i := 0 to numZeros
      invariant out == ZeroRun(i)
    {
      out := out + [0];
    }
    out := out + [1] + unit.nal;
  }

  /** One unit: parsed, counted, and written if it passes. */
  method DecodeUnit(stream: LookAheadStream, cfg: Config, unitCnt: nat)
    returns (ok: bool, written: seq<Byte>, next: nat)
    requires stream.Valid() && !stream.failed
    modifies stream
    ensures stream.Valid()
    ensures stream.Contents() == ParseUnit(old(stream.Contents())).rest
    ensures stream.failed == ParseUnit(old(stream.Contents())).failed
    ensures ok <==> |ParseUnit(old(stream.Contents())).nal| != 1
    ensures ok ==> written == WrittenFor(ParseUnit(old(stream.Contents())), unitCnt, cfg)
    ensures ok ==> next == if ParseUnit(old(stream.Contents())).nal == [] then unitCnt else unitCnt + 1
  {
    hide ParseUnit, Holds, Writes;
    ParsedShape(stream.Contents());
    var unit := stream.ByteStreamNalUnit();
    ok, written, next := true, [], unitCnt;
    if unit.nal != [] {
      var header := NalHeader.Read2(unit.nal);
      if header.Thrown? {
        return false, [], unitCnt;
      }
      next := unitCnt + 1;
      if Writes(cfg, header.value.unitType, next) {
        written := WriteUnit(unit);
      }
    }
  }

  /** SEIRemovalApp::decode. A unit of one byte makes read2 throw, and nobody catches it. */
  method Decode(stream: LookAheadStream, cfg: Config) returns (r: Outcome<seq<Byte>>)
    requires stream.Valid() && !stream.failed
    modifies stream
    ensures r.Done? <==> Readable(ParseAll(old(stream.Contents())))
    ensures r.Done? ==> r.value == Output(old(stream.Contents()), false, 0, cfg)
  {
    hide *;
    ghost var all := stream.Contents();
    var out: seq<Byte>, unitCnt := [], 0;
    ReadableIs(all);
    while !stream.failed
      invariant stream.Valid()
      invariant ReadableFrom(all, false) == ReadableFrom(stream.Contents(), stream.failed)
      invariant Output(all, false, 0, cfg) == out + Output(stream.Contents(), stream.failed, unitCnt, cfg)
      decreases !stream.failed, |stream.Contents()|
    {
      ghost var s := stream.Contents();
      ParseProgress(s);
      OutputStep(s, unitCnt, cfg);
      ReadableStep(s);
      var ok, written, next := DecodeUnit(stream, cfg, unitCnt);
      if !ok {
        return Thrown;
      }
      ghost var later := Output(stream.Contents(), stream.failed, next, cfg);
      assert out + (written + later) == out + written + later;
      out, unitCnt := out + written, next;
    }
    OutputEnd(stream.Contents(), unitCnt, cfg);
    return Done(out);
  }

  lemma ReadableIs(s: seq<Byte>)
    ensures ReadableFrom(s, false) == Readable(ParseAll(s))
    ensures forall t :: ReadableFrom(t, true)
  {
  }

  // ---- what the application is for ----

  lemma {:induction false} MaskedNals(us: seq<Unit>, unitCnt: nat, cfg: Config)
    requires Choice(us, KeepMask(us, unitCnt, cfg))
    ensures Nals(Reframe(us, KeepMask(us, unitCnt, cfg))) == KeptPayloads(Payloads(us), unitCnt, cfg)
  {
    if us != [] {
      var cnt := if us[0].nal == [] then unitCnt else unitCnt + 1;
      var mask := KeepMask(us, unitCnt, cfg);
      assert mask[1..] == KeepMask(us[1..], cnt, cfg);
      MaskedNals(us[1..], cnt, cfg);
      var gs := Reframe(us[1..], mask[1..]);
      hide KeepMask;
      if mask[0] {
        assert Reframe(us, mask) == [FrameOf(us[0])] + gs;
        assert Nals([FrameOf(us[0])] + gs) == [us[0].nal] + Nals(gs);
      } else {
        assert Reframe(us, mask) == gs;
      }
      if us[0].nal != [] {
        assert Payloads(us)[0] == us[0].nal && Payloads(us)[1..] == Payloads(us[1..]);
      } else {
        assert Payloads(us) == Payloads(us[1..]);
      }
    }
  }

  /** Parsing the output gives the payloads of the input that pass the filter, in order. */
  lemma OutputPayloads(s: seq<Byte>, cfg: Config)
    ensures Payloads(ParseAll(Output(s, false, 0, cfg))) == KeptPayloads(Payloads(ParseAll(s)), 0, cfg)
  {
    var us := ParseAll(s);
    ParsedPrefixes(s);
    MaskIsChoice(us, 0, cfg);
    ReemissionKeepsPayloads(s, KeepMask(us, 0, cfg));
    MaskedNals(us, 0, cfg);
  }

  /** With nothing to discard the payloads are untouched. */
  lemma {:induction false} KeepsAll(ps: seq<seq<Byte>>, unitCnt: nat, cfg: Config)
    requires !cfg.discardPrefixSeis && !cfg.discardSuffixSeis
    requires cfg.numNalUnitsToSkip <= 1 && cfg.numNalUnitsToWrite < 0
    ensures KeptPayloads(ps, unitCnt, cfg) == ps
  {
    if ps != [] {
      KeepsAll(ps[1..], unitCnt + 1, cfg);
    }
  }

  predicate Discarded(nal: seq<Byte>, cfg: Config) {
    || (cfg.discardPrefixSeis && UnitType(nal) == 23)
    || (cfg.discardSuffixSeis && UnitType(nal) == 24)
  }

  /** No discarded type survives. */
  lemma {:induction false} DropsTypes(ps: seq<seq<Byte>>, unitCnt: nat, cfg: Config)
    ensures forall p :: p in KeptPayloads(ps, unitCnt, cfg) ==> p in ps && !Discarded(p, cfg)
  {
    if ps != [] {
      DropsTypes(ps[1..], unitCnt + 1, cfg);
    }
  }

  /** The payloads that are not of a discarded type. */
  function Allowed(ps: seq<seq<Byte>>, cfg: Config): seq<seq<Byte>> {
    if ps == [] then [] else (if Discarded(ps[0], cfg) then [] else [ps[0]]) + Allowed(ps[1..], cfg)
  }

  /** How many of n payloads, numbered on from `unitCnt`, come before number `first`. */
  function Before(first: int, unitCnt: nat, n: nat): (k: nat)
    ensures k <= n
  {
    if first <= unitCnt + 1 then 0 else if first - unitCnt - 1 > n then n else first - unitCnt - 1
  }

  /** The numbers select a range: from number numNalUnitsToSkip to number numNalUnitsToWrite, or to the end. */
  function Selected(ps: seq<seq<Byte>>, unitCnt: nat, cfg: Config): seq<seq<Byte>> {
    var from := Before(cfg.numNalUnitsToSkip, unitCnt, |ps|);
    var to := if cfg.numNalUnitsToWrite < 0 then |ps| else Before(cfg.numNalUnitsToWrite + 1, unitCnt, |ps|);
    if from <= to then ps[from..to] else []
  }

  lemma SelectedStep(ps: seq<seq<Byte>>, unitCnt: nat, cfg: Config)
    requires ps != []
    ensures var rest := Selected(ps[1..], unitCnt + 1, cfg);
            Selected(ps, unitCnt, cfg) ==
            if cfg.numNalUnitsToSkip <= unitCnt + 1 &&
               (cfg.numNalUnitsToWrite < 0 || unitCnt < cfg.numNalUnitsToWrite)
            then [ps[0]] + rest else rest
  {
    var n := |ps|;
    assert Before(cfg.numNalUnitsToSkip, unitCnt, n) ==
      if cfg.numNalUnitsToSkip <= unitCnt + 1 then 0 else 1 + Before(cfg.numNalUnitsToSkip, unitCnt + 1, n - 1);
  }

  /** So what is kept is that range of the payloads, without the discarded types. */
  lemma {:induction false} KeptIsRange(ps: seq<seq<Byte>>, unitCnt: nat, cfg: Config)
    ensures KeptPayloads(ps, unitCnt, cfg) == Allowed(Selected(ps, unitCnt, cfg), cfg)
  {
    if ps != [] {
      KeptIsRange(ps[1..], unitCnt + 1, cfg);
      SelectedStep(ps, unitCnt, cfg);
      hide Selected;
      var rest := Selected(ps[1..], unitCnt + 1, cfg);
      assert ([ps[0]] + rest)[1..] == rest;
    }
  }

  lemma SelectedAfter(ps: seq<seq<Byte>>, cfg: Config)
    requires cfg.numNalUnitsToSkip >= 0 && cfg.numNalUnitsToWrite < 0
    ensures var n := cfg.numNalUnitsToSkip;
            Selected(ps, 0, cfg) == if n == 0 then ps else if n <= |ps| then ps[n - 1..] else []
  {
  }

  lemma AllowedFrom(ps: seq<seq<Byte>>, n: nat, cfg: Config)
    requires 0 < n <= |ps|
    ensures Allowed(ps[n - 1..], cfg) ==
            (if Discarded(ps[n - 1], cfg) then [] else [ps[n - 1]]) + Allowed(ps[n..], cfg)
  {
    hide Discarded;
    assert ps[n - 1..][0] == ps[n - 1] && ps[n - 1..][1..] == ps[n..];
  }

  /** The option's description promises that this many units are skipped. That holds exactly if the last of them is
      not there, or is of a discarded type: the program writes the unit with that number. */
  lemma SkipsAsDescribed(ps: seq<seq<Byte>>, cfg: Config)
    requires cfg.numNalUnitsToSkip >= 0 && cfg.numNalUnitsToWrite < 0
    ensures var n := cfg.numNalUnitsToSkip;
            KeptPayloads(ps, 0, cfg) == Allowed(if n <= |ps| then ps[n..] else [], cfg) <==>
            n == 0 || n > |ps| || Discarded(ps[n - 1], cfg)
  {
    hide *;
    var n := cfg.numNalUnitsToSkip;
    KeptIsRange(ps, 0, cfg);
    SelectedAfter(ps, cfg);
    if n == 0 {
      assert ps[0..] == ps;
    } else if n <= |ps| {
      AllowedFrom(ps, n, cfg);
    }
  }
}

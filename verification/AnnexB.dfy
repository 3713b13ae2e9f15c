/** The byte stream format of section B.3 of Rec. ITU-T H.266 as the parser reads it and the
    applications write it, on plain byte sequences. */
module AnnexB {
  import opened Bits
  import opened Nal

  // ---- what the parser looks for ----

  predicate AtPrefix(s: seq<Byte>) {
    |s| >= 3 && s[0] == 0 && s[1] == 0 && s[2] == 1
  }

  predicate AtLongPrefix(s: seq<Byte>) {
    |s| >= 4 && s[0] == 0 && s[1] == 0 && s[2] == 0 && s[3] == 1
  }

  predicate AtStartCode(s: seq<Byte>) {
    AtPrefix(s) || AtLongPrefix(s)
  }

  /** A NAL unit ends in front of 00 00 00, 00 00 01 and 00 00 02. */
  predicate AtStop(s: seq<Byte>) {
    StartCodeAt(s, 0)
  }

  // ---- one unit ----

  /** How a loop over the stream ended. Malformed: a byte that had to be zero was not. */
  datatype Ending = Found | EndOfFile | Malformed

  /** Zero bytes skipped in search of a start code; `bad` is the non-zero byte that stopped a
      malformed stream; `failed`: the look-ahead hit the end of the file. */
  datatype Skipped = Skipped(count: nat, bad: seq<Byte>, rest: seq<Byte>, ending: Ending, failed: bool)

  function SkipZeros(s: seq<Byte>): (r: Skipped)
    ensures r.ending.Found? ==> AtStartCode(r.rest) && !r.failed
    ensures r.ending.EndOfFile? ==> r.rest == [] && r.failed
    ensures if r.ending.Malformed? then |r.bad| == 1 && r.bad[0] != 0 else r.bad == []
  {
    if AtStartCode(s) then Skipped(0, [], s, Found, false)
    else if s == [] then Skipped(0, [], [], EndOfFile, true)
    else if s[0] != 0 then Skipped(0, [s[0]], s[1..], Malformed, |s| < 4)
    else
      var r := SkipZeros(s[1..]);
      Skipped(r.count + 1, r.bad, r.rest, r.ending, r.failed || |s| < 4)
  }

  /** The bytes of a NAL unit; `found` is false when the file ended first. */
  datatype Taken = Taken(nal: seq<Byte>, rest: seq<Byte>, found: bool)

  function TakeNal(s: seq<Byte>): (r: Taken)
    ensures r.nal + r.rest == s
    ensures if r.found then AtStop(r.rest) else r.rest == []
  {
    if AtStop(s) then Taken([], s, true)
    else if s == [] then Taken([], [], false)
    else
      var r := TakeNal(s[1..]);
      FrontJoins(s, r.nal, r.rest);
      Taken([s[0]] + r.nal, r.rest, r.found)
  }

  lemma FrontJoins(s: seq<Byte>, a: seq<Byte>, b: seq<Byte>)
    requires s != [] && a + b == s[1..]
    ensures [s[0]] + a + b == s
  {
    assert [s[0]] + a + b == [s[0]] + (a + b);
  }

  /** Everything one call of byteStreamNALUnit yields: the unit, the statistics, what is left,
      and whether the stream is in a failed state afterwards. */
  datatype Unit = Unit(nal: seq<Byte>, leading: nat, zeroByte: nat, prefix: nat, trailing: nat,
                       bad: seq<Byte>, rest: seq<Byte>, ending: Ending, failed: bool) {
    /** The value byteStreamNALUnit returns. */
    predicate Eof() { !ending.Found? }
  }

  function ParseUnit(s: seq<Byte>): Unit {
    var l := SkipZeros(s);
    if !l.ending.Found? then
      Unit([], l.count, 0, 0, 0, l.bad, l.rest, l.ending, l.failed)
    else
      var z := if AtPrefix(l.rest) then 0 else 1;
      var n := TakeNal(l.rest[z + 3..]);
      if !n.found then
        Unit(n.nal, l.count, z, 3, 0, [], [], EndOfFile, true)
      else
        var t := SkipZeros(n.rest);
        Unit(n.nal, l.count, z, 3, t.count, t.bad, t.rest, t.ending, t.failed)
  }

  // ---- no byte is lost ----

  function ZeroRun(n: nat): (r: seq<Byte>)
    ensures |r| == n && forall i :: 0 <= i < n ==> r[i] == 0
  {
    seq(n, _ => 0)
  }

  lemma {:induction false} SkipZerosSplits(s: seq<Byte>)
    ensures var r := SkipZeros(s);
            s == ZeroRun(r.count) + r.bad + r.rest
  {
    if !AtStartCode(s) && s != [] && s[0] == 0 {
      hide *;
      SkipZerosSplits(s[1..]);
      SkipNext(s);
      var q := SkipZeros(s[1..]);
      ZeroInFront(q.count, q.bad, q.rest);
      assert s == [s[0]] + s[1..];
    } else {
      SkipNone(s);
    }
  }

  lemma SkipNext(s: seq<Byte>)
    requires !AtStartCode(s) && s != [] && s[0] == 0
    ensures var r := SkipZeros(s[1..]);
            SkipZeros(s) == Skipped(r.count + 1, r.bad, r.rest, r.ending, r.failed || |s| < 4)
  {
  }

  lemma SkipNone(s: seq<Byte>)
    requires AtStartCode(s) || s == [] || s[0] != 0
    ensures SkipZeros(s).count == 0 && s == ZeroRun(0) + SkipZeros(s).bad + SkipZeros(s).rest
  {
  }

  lemma ZeroInFront(n: nat, a: seq<Byte>, b: seq<Byte>)
    ensures [0] + (ZeroRun(n) + a + b) == ZeroRun(n + 1) + a + b
  {
    assert [0] + ZeroRun(n) == ZeroRun(n + 1);
    hide ZeroRun;
    assert [0] + (ZeroRun(n) + a + b) == [0] + ZeroRun(n) + a + b;
  }

  /** The prefix bytes counted in the statistics. */
  function PrefixBytes(u: Unit): seq<Byte> {
    if u.prefix == 3 then ZeroRun(u.zeroByte) + [0, 0, 1] else []
  }

  function Consumed(u: Unit): seq<Byte> {
    ZeroRun(u.leading) + PrefixBytes(u) + u.nal + ZeroRun(u.trailing) + u.bad
  }

  /** Every parse accounts for each byte it consumed, and only a malformed one discards a byte
      that no counter counts. */
  lemma ParseSplits(s: seq<Byte>)
    ensures var u := ParseUnit(s);
            && s == Consumed(u) + u.rest
            && (if u.ending.Malformed? then |u.bad| == 1 && u.bad[0] != 0 else u.bad == [])
  {
    hide SkipZeros, TakeNal, ZeroRun, Consumed;
    var l := SkipZeros(s);
    SkipZerosSplits(s);
    if !l.ending.Found? {
      NothingFound(s);
    } else if TakeNal(l.rest[(if AtPrefix(l.rest) then 0 else 1) + 3..]).found {
      UnitFound(s);
    } else {
      LastUnitFound(s);
    }
  }

  lemma NothingFound(s: seq<Byte>)
    requires !SkipZeros(s).ending.Found?
    ensures s == Consumed(ParseUnit(s)) + ParseUnit(s).rest
  {
    hide SkipZeros, TakeNal, ZeroRun;
    var l := SkipZeros(s);
    SkipZerosSplits(s);
    NoZeros();
    Reassociate(ZeroRun(l.count), [], [], ZeroRun(0), l.bad, l.rest);
  }

  lemma NoZeros()
    ensures ZeroRun(0) == []
  {
  }

  /** The bytes up to the unit's end. */
  lemma FrontSplits(s: seq<Byte>, code: nat)
    requires SkipZeros(s).ending.Found? && code == if AtPrefix(SkipZeros(s).rest) then 0 else 1
    ensures var l := SkipZeros(s);
            && AtStartCode(l.rest) && code + 3 <= |l.rest|
            && var n := TakeNal(l.rest[code + 3..]);
               s == ZeroRun(l.count) + (ZeroRun(code) + [0, 0, 1] + (n.nal + n.rest))
  {
    SkipZerosSplits(s);
    hide SkipZeros, TakeNal, ZeroRun;
    var l := SkipZeros(s);
    PrefixSplits(l.rest);
    assert ZeroRun(l.count) + [] + l.rest == ZeroRun(l.count) + l.rest;
  }

  lemma UnitFound(s: seq<Byte>)
    requires SkipZeros(s).ending.Found?
    requires var l := SkipZeros(s);
             TakeNal(l.rest[(if AtPrefix(l.rest) then 0 else 1) + 3..]).found
    ensures s == Consumed(ParseUnit(s)) + ParseUnit(s).rest
  {
    hide SkipZeros, TakeNal, ZeroRun;
    var l, code := SkipZeros(s), if AtPrefix(SkipZeros(s).rest) then 0 else 1;
    FrontSplits(s, code);
    var n := TakeNal(l.rest[code + 3..]);
    var t := SkipZeros(n.rest);
    SkipZerosSplits(n.rest);
    Reassociate(ZeroRun(l.count), ZeroRun(code) + [0, 0, 1], n.nal, ZeroRun(t.count), t.bad, t.rest);
  }

  lemma LastUnitFound(s: seq<Byte>)
    requires SkipZeros(s).ending.Found?
    requires var l := SkipZeros(s);
             !TakeNal(l.rest[(if AtPrefix(l.rest) then 0 else 1) + 3..]).found
    ensures s == Consumed(ParseUnit(s)) + ParseUnit(s).rest
  {
    hide SkipZeros, TakeNal, ZeroRun;
    var l, code := SkipZeros(s), if AtPrefix(SkipZeros(s).rest) then 0 else 1;
    FrontSplits(s, code);
    var n := TakeNal(l.rest[code + 3..]);
    NoZeros();
    Reassociate(ZeroRun(l.count), ZeroRun(code) + [0, 0, 1], n.nal, ZeroRun(0), [], []);
  }

  lemma PrefixSplits(r: seq<Byte>)
    requires AtStartCode(r)
    ensures var z := if AtPrefix(r) then 0 else 1;
            r == ZeroRun(z) + [0, 0, 1] + r[z + 3..]
  {
  }

  lemma Reassociate(a: seq<Byte>, b: seq<Byte>, c: seq<Byte>, d: seq<Byte>, e: seq<Byte>, f: seq<Byte>)
    ensures a + (b + (c + (d + e + f))) == a + b + c + d + e + f
    ensures b == c == d == [] ==> a + e + f == a + b + c + d + e + f
    ensures d == e == f == [] ==> a + (b + (c + f)) == a + b + c + d + e + f
  {
  }

  /** A parse that leaves the stream usable has consumed something. */
  lemma ParseProgress(s: seq<Byte>)
    ensures !ParseUnit(s).failed ==> |ParseUnit(s).rest| < |s|
  {
    ParseSplits(s);
  }

  // ---- a whole stream ----

  /** The application loop: parse units until the stream has failed. */
  function ParseAll(s: seq<Byte>): (us: seq<Unit>)
    ensures us != [] && us[0] == ParseUnit(s)
    decreases |s|
  {
    ParseProgress(s);
    var u := ParseUnit(s);
    [u] + (if u.failed then [] else ParseAll(u.rest))
  }

  /** A NAL unit behind a start code of so many zeros and a one. */
  datatype Framed = Framed(zeros: nat, nal: seq<Byte>)

  function Emit(fs: seq<Framed>): seq<Byte> {
    if fs == [] then [] else ZeroRun(fs[0].zeros) + [1] + fs[0].nal + Emit(fs[1..])
  }

  /** A payload the parser can delimit. */
  ghost predicate Delimitable(nal: seq<Byte>) {
    nal != [] && NoStartCode(nal) && nal[|nal| - 1] != 0
  }

  /** What may stand in front of the end of the file. */
  ghost predicate Closing(nal: seq<Byte>) {
    nal != [] && NoStartCode(nal)
  }

  ghost predicate WellFramed(fs: seq<Framed>) {
    && (forall i :: 0 <= i < |fs| ==> fs[i].zeros >= 2 && Closing(fs[i].nal))
    && (forall i :: 0 <= i < |fs| - 1 ==> Delimitable(fs[i].nal))
  }

  // ---- framing round trip ----

  function Min(a: nat, b: nat): nat { if a <= b then a else b }

  /** All but the last three zeros of a start code count as leading or trailing zeros. */
  lemma {:induction false} SkipToCode(z: nat, t: seq<Byte>)
    requires z >= 2
    ensures SkipZeros(ZeroRun(z) + [1] + t) == Skipped(z - Min(z, 3), [], ZeroRun(Min(z, 3)) + [1] + t, Found, false)
  {
    var s := ZeroRun(z) + [1] + t;
    if z <= 3 {
      SkipAtCode(s);
    } else {
      assert s[1..] == ZeroRun(z - 1) + [1] + t;
      hide SkipZeros;
      SkipToCode(z - 1, t);
      SkipNext(s);
    }
  }

  lemma SkipAtCode(s: seq<Byte>)
    requires AtStartCode(s)
    ensures SkipZeros(s) == Skipped(0, [], s, Found, false)
  {
  }

  lemma {:induction false} TakeDelimitable(nal: seq<Byte>, t: seq<Byte>)
    requires NoStartCode(nal) && (nal != [] ==> nal[|nal| - 1] != 0) && AtStop(t)
    ensures TakeNal(nal + t) == Taken(nal, t, true)
  {
    hide *;
    if nal == [] {
      assert nal + t == t;
      TakeAtStop(t);
    } else {
      NoStartCodeTail(nal);
      TakeDelimitable(nal[1..], t);
      NotAtStop(nal, t);
      TakeNext(nal + t);
      assert (nal + t)[1..] == nal[1..] + t;
      assert nal == [nal[0]] + nal[1..];
    }
  }

  lemma NotAtStop(nal: seq<Byte>, t: seq<Byte>)
    requires NoStartCode(nal) && nal != [] && nal[|nal| - 1] != 0
    ensures !AtStop(nal + t)
  {
    assert !StartCodeAt(nal, 0);
  }

  lemma TakeAtStop(t: seq<Byte>)
    requires AtStop(t)
    ensures TakeNal(t) == Taken([], t, true)
  {
  }

  lemma TakeNext(s: seq<Byte>)
    requires s != [] && !AtStop(s)
    ensures var r := TakeNal(s[1..]); TakeNal(s) == Taken([s[0]] + r.nal, r.rest, r.found)
  {
  }

  lemma {:induction false} TakeClosing(nal: seq<Byte>)
    requires NoStartCode(nal)
    ensures TakeNal(nal) == Taken(nal, [], false)
  {
    assert !StartCodeAt(nal, 0);
    if nal != [] {
      NoStartCodeTail(nal);
      TakeClosing(nal[1..]);
      assert nal == [nal[0]] + nal[1..];
    }
  }

  lemma NoStartCodeTail(nal: seq<Byte>)
    requires nal != [] && NoStartCode(nal)
    ensures NoStartCode(nal[1..])
  {
    forall i: nat
      ensures !StartCodeAt(nal[1..], i)
    {
      assert !StartCodeAt(nal, i + 1);
    }
  }

  /** Excess zeros in front of a unit are consumed with the unit before it. */
  function Capped(fs: seq<Framed>): seq<Framed>
    requires fs != []
  {
    [Framed(Min(fs[0].zeros, 3), fs[0].nal)] + fs[1..]
  }

  lemma EmitStep(fs: seq<Framed>)
    requires fs != []
    ensures Emit(fs) == ZeroRun(fs[0].zeros) + [1] + fs[0].nal + Emit(fs[1..])
  {
  }

  lemma EmitCapped(fs: seq<Framed>)
    requires fs != []
    ensures Emit(Capped(fs)) == ZeroRun(Min(fs[0].zeros, 3)) + [1] + (fs[0].nal + Emit(fs[1..]))
    ensures Emit(fs) == ZeroRun(fs[0].zeros) + [1] + (fs[0].nal + Emit(fs[1..]))
  {
    EmitStep(fs);
    EmitStep(Capped(fs));
    hide Emit, ZeroRun;
    assert Capped(fs)[1..] == fs[1..] && Capped(fs)[0].nal == fs[0].nal;
    Associate(ZeroRun(fs[0].zeros) + [1], fs[0].nal, Emit(fs[1..]));
    Associate(ZeroRun(Min(fs[0].zeros, 3)) + [1], fs[0].nal, Emit(fs[1..]));
  }

  lemma Associate(a: seq<Byte>, b: seq<Byte>, c: seq<Byte>)
    ensures a + b + c == a + (b + c)
  {
  }

  lemma {:induction false} ParseFramed(fs: seq<Framed>)
    requires fs != [] && WellFramed(fs)
    ensures var u := ParseUnit(Emit(fs));
            && u.nal == fs[0].nal && u.prefix == 3 && u.leading + u.zeroByte == fs[0].zeros - 2
            && if |fs| == 1 then u.Eof() && u.failed
               else !u.Eof() && !u.failed && u.rest == Emit(Capped(fs[1..]))
  {
    var z, t := fs[0].zeros, fs[0].nal + Emit(fs[1..]);
    EmitCapped(fs);
    SkipToCode(z, t);
    var l := SkipZeros(Emit(fs));
    var code := if AtPrefix(l.rest) then 0 else 1;
    assert code == Min(z, 3) - 2 && l.rest[code + 3..] == t;
    hide SkipZeros, TakeNal, Emit;
    if |fs| == 1 {
      EmitNothing(fs[1..]);
      assert t == fs[0].nal;
      TakeClosing(t);
    } else {
      var gs := fs[1..];
      EmitCapped(gs);
      var next := gs[0].nal + Emit(gs[1..]);
      assert AtStop(Emit(gs));
      TakeDelimitable(fs[0].nal, Emit(gs));
      SkipToCode(gs[0].zeros, next);
    }
  }

  lemma EmitNothing(fs: seq<Framed>)
    requires fs == []
    ensures Emit(fs) == []
  {
  }

  /** Whatever payloads are emitted come back, in order, and the end of the file is reported
      with the last one and not before. */
  lemma {:induction false} FramingRoundTrip(fs: seq<Framed>)
    requires fs != [] && WellFramed(fs)
    ensures var us := ParseAll(Emit(fs));
            && |us| == |fs|
            && forall i :: 0 <= i < |fs| ==> us[i].nal == fs[i].nal && us[i].Eof() == (i == |fs| - 1)
    decreases |fs|
  {
    hide *;
    ParseFramed(fs);
    ParseAllStep(Emit(fs));
    if |fs| > 1 {
      var gs := Capped(fs[1..]);
      CappedIsWellFramed(fs);
      FramingRoundTrip(gs);
      var us := ParseAll(Emit(fs));
      forall i | 0 <= i < |fs|
        ensures us[i].nal == fs[i].nal && us[i].Eof() == (i == |fs| - 1)
      {
        if i > 0 {
          assert us[i] == ParseAll(Emit(gs))[i - 1] && gs[i - 1].nal == fs[i].nal;
        }
      }
    }
  }

  lemma ParseAllStep(s: seq<Byte>)
    ensures ParseAll(s) == [ParseUnit(s)] + if ParseUnit(s).failed then [] else ParseAll(ParseUnit(s).rest)
  {
    hide ParseUnit;
  }

  lemma CappedIsWellFramed(fs: seq<Framed>)
    requires |fs| > 1 && WellFramed(fs)
    ensures var gs := Capped(fs[1..]);
            && WellFramed(gs) && |gs| == |fs| - 1 && forall i :: 0 <= i < |gs| ==> gs[i].nal == fs[i + 1].nal
  {
    hide NoStartCode;
    var gs := Capped(fs[1..]);
    forall i | 0 <= i < |gs|
      ensures gs[i].zeros >= 2 && gs[i].nal == fs[i + 1].nal && Closing(gs[i].nal)
      ensures i < |gs| - 1 ==> Delimitable(gs[i].nal)
    {
      assert Closing(fs[i + 1].nal) && fs[i + 1].zeros >= 2;
    }
  }

  // ---- re-emission ----

  /** What an application writes for a unit it keeps. */
  function FrameOf(u: Unit): Framed
    requires u.prefix == 3
  {
    Framed(u.leading + u.zeroByte + u.prefix - 1, u.nal)
  }

  lemma PrefixNoStop(a: seq<Byte>, b: seq<Byte>)
    requires !AtStop(a + b)
    ensures !StartCodeAt(a, 0)
  {
  }

  lemma {:induction false} TakenShape(s: seq<Byte>)
    ensures NoStartCode(TakeNal(s).nal)
    ensures TakeNal(s).found && TakeNal(s).nal != [] ==> TakeNal(s).nal[|TakeNal(s).nal| - 1] != 0
  {
    if AtStop(s) || s == [] {
      TakeNone(s);
    } else {
      hide *;
      TakenShape(s[1..]);
      TakeNext(s);
      var q := TakeNal(s[1..]);
      assert s == [s[0]] + s[1..];
      FrontIsClean(s[0], q.nal, q.rest);
    }
  }

  lemma TakeNone(s: seq<Byte>)
    requires AtStop(s) || s == []
    ensures TakeNal(s).nal == [] && NoStartCode([])
    ensures TakeNal(s).found ==> AtStop(s)
  {
  }

  lemma FrontIsClean(b: Byte, nal: seq<Byte>, rest: seq<Byte>)
    requires NoStartCode(nal) && !AtStop([b] + (nal + rest))
    ensures NoStartCode([b] + nal)
  {
    assert [b] + (nal + rest) == [b] + nal + rest;
    PrefixNoStop([b] + nal, rest);
    hide StartCodeAt;
    assert ([b] + nal)[1..] == nal;
    CleanExtend([b] + nal, 1);
  }

  /** A payload that comes out of a parse can be emitted again, anywhere if the stream is still
      usable, at the end otherwise. */
  lemma ParsedShape(s: seq<Byte>)
    ensures var u := ParseUnit(s);
            u.nal != [] ==> u.prefix == 3 && Closing(u.nal) && (!u.failed ==> Delimitable(u.nal))
  {
    hide SkipZeros, TakeNal, NoStartCode;
    var l := SkipZeros(s);
    if l.ending.Found? {
      TakenShape(l.rest[(if AtPrefix(l.rest) then 0 else 1) + 3..]);
    }
  }

  /** The units an application keeps: any choice among those with a payload. */
  ghost predicate Choice(us: seq<Unit>, keep: seq<bool>) {
    |keep| == |us| && forall i :: 0 <= i < |us| ==> keep[i] ==> us[i].nal != [] && us[i].prefix == 3
  }

  ghost function Reframe(us: seq<Unit>, keep: seq<bool>): seq<Framed>
    requires Choice(us, keep)
  {
    if us == [] then [] else (if keep[0] then [FrameOf(us[0])] else []) + Reframe(us[1..], keep[1..])
  }

  function Payloads(us: seq<Unit>): seq<seq<Byte>> {
    if us == [] then [] else (if us[0].nal != [] then [us[0].nal] else []) + Payloads(us[1..])
  }

  function Nals(fs: seq<Framed>): seq<seq<Byte>> {
    seq(|fs|, i requires 0 <= i < |fs| => fs[i].nal)
  }

  lemma {:induction false} ReframedIsWellFramed(s: seq<Byte>, keep: seq<bool>)
    requires Choice(ParseAll(s), keep)
    ensures WellFramed(Reframe(ParseAll(s), keep))
    decreases |s|
  {
    var us, u := ParseAll(s), ParseUnit(s);
    ParsedShape(s);
    hide ParseUnit;
    if u.failed {
      assert us == [u] && us[1..] == [];
      assert Reframe(us[1..], keep[1..]) == [];
    } else {
      ParseProgress(s);
      assert us[1..] == ParseAll(u.rest);
      ReframedIsWellFramed(u.rest, keep[1..]);
      var fs, gs := Reframe(us, keep), Reframe(us[1..], keep[1..]);
      if keep[0] {
        assert fs == [FrameOf(u)] + gs;
      } else {
        assert fs == gs;
      }
    }
  }

  lemma {:induction false} PayloadsOf(us: seq<Unit>)
    requires forall i :: 0 <= i < |us| ==> us[i].nal != []
    ensures |Payloads(us)| == |us| && forall i :: 0 <= i < |us| ==> Payloads(us)[i] == us[i].nal
  {
    if us != [] {
      PayloadsOf(us[1..]);
    }
  }

  /** Parse any byte stream, well formed or not, write out any choice of the units as the
      applications do, and parse the result: the kept payloads come back unchanged. */
  lemma ReemissionKeepsPayloads(s: seq<Byte>, keep: seq<bool>)
    requires Choice(ParseAll(s), keep)
    ensures var fs := Reframe(ParseAll(s), keep);
            Payloads(ParseAll(Emit(fs))) == Nals(fs)
  {
    hide *;
    var fs := Reframe(ParseAll(s), keep);
    ReframedIsWellFramed(s, keep);
    if fs == [] {
      EmptyStream();
    } else {
      FramingRoundTrip(fs);
      ArrivedNals(fs, ParseAll(Emit(fs)));
    }
  }

  lemma ArrivedNals(fs: seq<Framed>, us: seq<Unit>)
    requires WellFramed(fs) && |us| == |fs| && forall i :: 0 <= i < |fs| ==> us[i].nal == fs[i].nal
    ensures Payloads(us) == Nals(fs)
  {
    hide Payloads, NoStartCode;
    forall i | 0 <= i < |us|
      ensures us[i].nal != []
    {
      assert Closing(fs[i].nal);
    }
    PayloadsOf(us);
  }

  lemma EmptyStream()
    ensures Payloads(ParseAll(Emit([]))) == [] && Nals([]) == []
  {
    assert ParseUnit([]).failed;
    assert ParseAll([])[1..] == [];
  }
}

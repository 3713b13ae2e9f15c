/** Emulation prevention: the escaper of NALwrite.cpp, the un-escaper of NALread.cpp and the
    counter of BitStream.cpp (section 7.4.2.1 of Rec. ITU-T H.266). */
module Nal {
  import opened Bits
  import opened BitStream

  // ---- the escaper, one byte at a time ----

  /** zeroCount after a byte: an inserted byte resets it first. */
  function NextZeros(z: nat, b: Byte): (r: nat)
    ensures z <= 2 ==> r <= 2
  {
    if b != 0 then 0 else if z == 2 then 1 else z + 1
  }

  predicate NeedsEscape(z: nat, b: Byte) {
    z == 2 && b <= 3
  }

  function EscapeFrom(s: seq<Byte>, z: nat): seq<Byte> {
    if s == [] then []
    else (if NeedsEscape(z, s[0]) then [3] else []) + [s[0]] + EscapeFrom(s[1..], NextZeros(z, s[0]))
  }

  function ZerosAfter(s: seq<Byte>, z: nat): (r: nat)
    ensures z <= 2 ==> r <= 2
  {
    if s == [] then z else ZerosAfter(s[1..], NextZeros(z, s[0]))
  }

  /** The bytes written for an RBSP: a final 3 hides zeros at its end. */
  function Escape(s: seq<Byte>): seq<Byte> {
    EscapeFrom(s, 0) + Hiding(ZerosAfter(s, 0))
  }

  lemma EscapeStep(s: seq<Byte>, z: nat)
    requires s != []
    ensures EscapeFrom(s, z)
         == (if NeedsEscape(z, s[0]) then [3] else []) + [s[0]] + EscapeFrom(s[1..], NextZeros(z, s[0]))
    ensures ZerosAfter(s, z) == ZerosAfter(s[1..], NextZeros(z, s[0]))
  {
  }

  lemma {:induction false} EscapeSnoc(s: seq<Byte>, b: Byte, z: nat)
    ensures EscapeFrom(s + [b], z)
         == EscapeFrom(s, z) + (if NeedsEscape(ZerosAfter(s, z), b) then [3] else []) + [b]
    ensures ZerosAfter(s + [b], z) == NextZeros(ZerosAfter(s, z), b)
  {
    if s == [] {
      EscapeOne(b, z);
      assert s + [b] == [b];
    } else {
      hide EscapeFrom, ZerosAfter, NeedsEscape, NextZeros;
      EscapeSnoc(s[1..], b, NextZeros(z, s[0]));
      EscapeStep(s, z);
      EscapeStep(s + [b], z);
      assert (s + [b])[1..] == s[1..] + [b];
    }
  }

  lemma EscapeOne(b: Byte, z: nat)
    ensures EscapeFrom([], z) == [] && ZerosAfter([], z) == z
    ensures EscapeFrom([b], z) == (if NeedsEscape(z, b) then [3] else []) + [b] && ZerosAfter([b], z) == NextZeros(z, b)
  {
    assert EscapeFrom([b][1..], NextZeros(z, b)) == [];
  }

  /** One byte of the loop: escaped if need be, and counted if it is zero. */
  method WriteByte(outputBuffer: array<Byte>, outputAmount: nat, zeroCount: nat, v: Byte)
    returns (amount: nat, zeros: nat)
    requires outputAmount + 2 <= outputBuffer.Length && zeroCount <= 2
    modifies outputBuffer
    ensures amount <= outputAmount + 2
    ensures outputBuffer[..amount]
         == old(outputBuffer[..outputAmount]) + (if NeedsEscape(zeroCount, v) then [3] else []) + [v]
    ensures zeros == NextZeros(zeroCount, v)
  {
    amount, zeros := outputAmount, zeroCount;
    ghost var before := outputBuffer[..outputAmount];
    if zeroCount == 2 && v <= 3 {
      outputBuffer[amount] := 3;
      amount := amount + 1;
      zeros := 0;
      assert outputBuffer[..amount] == before + [3];
    }
    if v == 0 {
      zeros := zeros + 1;
    } else {
      zeros := 0;
    }
    ghost var middle := outputBuffer[..amount];
    outputBuffer[amount] := v;
    amount := amount + 1;
    assert outputBuffer[..amount] == middle + [v];
  }

  /** The writer's loop over a buffer of 2n + 1 bytes, which is never overrun. */
  method WriteNaluContent(rbsp: seq<Byte>) returns (written: seq<Byte>)
    ensures written == Escape(rbsp)
  {
    hide *;
    var outputBuffer := new Byte[2 * |rbsp| + 1](_ => 0);
    var outputAmount: nat, zeroCount: nat := 0, 0;
    EscapeNothing();
    assert rbsp[..0] == [];
    for it := 0 to |rbsp|
      invariant outputAmount <= 2 * it
      invariant outputBuffer[..outputAmount] == EscapeFrom(rbsp[..it], 0)
      invariant zeroCount == ZerosAfter(rbsp[..it], 0) <= 2
    {
      var v := rbsp[it];
      EscapeSnoc(rbsp[..it], v, 0);
      assert rbsp[..it] + [v] == rbsp[..it + 1];
      outputAmount, zeroCount := WriteByte(outputBuffer, outputAmount, zeroCount, v);
    }
    assert rbsp[..|rbsp|] == rbsp;
    EscapeIs(rbsp);
    if zeroCount > 0 {
      ghost var before := outputBuffer[..outputAmount];
      outputBuffer[outputAmount] := 3;
      outputAmount := outputAmount + 1;
      assert outputBuffer[..outputAmount] == before + [3];
    }
    written := outputBuffer[..outputAmount];
  }

  lemma EscapeNothing()
    ensures EscapeFrom([], 0) == [] && ZerosAfter([], 0) == 0
  {
  }

  lemma EscapeIs(s: seq<Byte>)
    ensures Escape(s) == if ZerosAfter(s, 0) > 0 then EscapeFrom(s, 0) + [3] else EscapeFrom(s, 0)
  {
    hide EscapeFrom, ZerosAfter;
  }

  // ---- what the escaped bytes look like ----

  /** A byte-aligned 00 00 00, 00 00 01 or 00 00 02 at position i. */
  predicate StartCodeAt(t: seq<Byte>, i: nat) {
    i + 2 < |t| && t[i] == 0 && t[i + 1] == 0 && t[i + 2] <= 2
  }

  ghost predicate NoStartCode(t: seq<Byte>) {
    forall i: nat :: !StartCodeAt(t, i)
  }

  function ZeroBytesSeq(z: nat): (r: seq<Byte>)
    ensures |r| == z && forall i :: 0 <= i < z ==> r[i] == 0
  {
    seq(z, _ => 0)
  }

  lemma CleanExtend(t: seq<Byte>, k: nat)
    requires k <= |t| && NoStartCode(t[k..])
    requires forall i: nat :: i < k ==> !StartCodeAt(t, i)
    ensures NoStartCode(t)
  {
    forall i: nat
      ensures !StartCodeAt(t, i)
    {
      if i >= k {
        assert StartCodeAt(t, i) ==> StartCodeAt(t[k..], i - k);
      }
    }
  }

  /** After z zeros the escaped bytes cannot complete a start code. */
  lemma {:induction false} EscapeFromClean(s: seq<Byte>, z: nat)
    requires z <= 2
    ensures NoStartCode(ZeroBytesSeq(z) + EscapeFrom(s, z))
  {
    if s != [] {
      var b, z' := s[0], NextZeros(z, s[0]);
      EscapeFromClean(s[1..], z');
      EscapeStep(s, z);
      hide EscapeFrom, NoStartCode;
      FrontStaysClean(z, b, EscapeFrom(s[1..], z'), EscapeFrom(s, z));
    }
  }

  /** One escaped byte in front of clean bytes. */
  lemma FrontStaysClean(z: nat, b: Byte, tail: seq<Byte>, whole: seq<Byte>)
    requires z <= 2 && NoStartCode(ZeroBytesSeq(NextZeros(z, b)) + tail)
    requires whole == (if NeedsEscape(z, b) then [3] else []) + [b] + tail
    ensures NoStartCode(ZeroBytesSeq(z) + whole)
  {
    hide NoStartCode;
    var known, all := ZeroBytesSeq(NextZeros(z, b)) + tail, ZeroBytesSeq(z) + whole;
    var k := |all| - |known|;
    assert all[k..] == known;
    CleanExtend(all, k);
  }

  lemma {:induction false} EscapeEnd(s: seq<Byte>, z: nat)
    ensures s != [] ==> EscapeFrom(s, z) != [] && EscapeFrom(s, z)[|EscapeFrom(s, z)| - 1] == s[|s| - 1]
    ensures s != [] && s[|s| - 1] == 0 ==> ZerosAfter(s, z) > 0
    ensures s != [] && s[|s| - 1] != 0 ==> ZerosAfter(s, z) == 0
  {
    if |s| > 1 {
      EscapeEnd(s[1..], NextZeros(z, s[0]));
    } else if |s| == 1 {
      assert s[1..] == [];
    }
  }

  /** An escaped payload never imitates a start code and never ends in a zero byte. */
  lemma EscapedIsClean(s: seq<Byte>)
    ensures NoStartCode(Escape(s))
    ensures s != [] ==> Escape(s) != [] && Escape(s)[|Escape(s)| - 1] != 0
  {
    EscapeFromClean(s, 0);
    assert ZeroBytesSeq(0) + EscapeFrom(s, 0) == EscapeFrom(s, 0);
    EscapeEnd(s, 0);
    var e := EscapeFrom(s, 0);
    forall i: nat
      ensures !StartCodeAt(Escape(s), i)
    {
      assert !StartCodeAt(e, i);
    }
  }

  // ---- the un-escaper ----

  /** What remains of a NAL unit, and where the removed bytes were. */
  datatype Rbsp = Rbsp(bytes: seq<Byte>, removedAt: seq<nat>)

  function Prepend(b: Byte, r: Outcome<Rbsp>): Outcome<Rbsp> {
    if r.Thrown? then Thrown else Done(Rbsp([b] + r.value.bytes, r.value.removedAt))
  }

  function PrependRemoved(pos: nat, r: Outcome<Rbsp>): Outcome<Rbsp> {
    if r.Thrown? then Thrown else Done(Rbsp(r.value.bytes, [pos] + r.value.removedAt))
  }

  /** Un-escaping from position pos with z zeros just read. */
  function UnescapeFrom(t: seq<Byte>, z: nat, pos: nat): Outcome<Rbsp> {
    if t == [] then
      if z != 0 then Thrown else Done(Rbsp([], []))
    else if z >= 2 && t[0] < 3 then Thrown
    else if z == 2 && t[0] == 3 then
      PrependRemoved(pos,
        if |t| == 1 then Done(Rbsp([], []))
        else if t[1] > 3 then Thrown
        else Prepend(t[1], UnescapeFrom(t[2..], if t[1] == 0 then 1 else 0, pos + 2)))
    else Prepend(t[0], UnescapeFrom(t[1..], if t[0] == 0 then z + 1 else 0, pos + 1))
  }

  function Unescape(t: seq<Byte>): Outcome<Rbsp> {
    UnescapeFrom(t, 0, 0)
  }

  // ---- the round trips ----

  lemma UnescapePlain(b: Byte, rest: seq<Byte>, z: nat, pos: nat)
    requires z < 2 || b > 3
    ensures UnescapeFrom([b] + rest, z, pos)
         == Prepend(b, UnescapeFrom(rest, if b == 0 then z + 1 else 0, pos + 1))
  {
    assert ([b] + rest)[1..] == rest;
  }

  lemma UnescapeRemoved(b: Byte, rest: seq<Byte>, pos: nat)
    requires b <= 3
    ensures UnescapeFrom([3, b] + rest, 2, pos)
         == PrependRemoved(pos, Prepend(b, UnescapeFrom(rest, if b == 0 then 1 else 0, pos + 2)))
  {
    assert ([3, b] + rest)[2..] == rest;
  }

  /** The byte that hides zeros at the end. */
  function Hiding(zeros: nat): seq<Byte> {
    if zeros > 0 then [3] else []
  }

  lemma UnescapeHiding(z: nat, pos: nat)
    requires z <= 2
    ensures UnescapeFrom(Hiding(z), z, pos)
         == Done(if z == 0 then Rbsp([], []) else if z == 1 then Rbsp([3], []) else Rbsp([], [pos]))
  {
    assert [pos] + [] == [pos];
    if z == 1 {
      var three: seq<Byte> := [3];
      UnescapePlain(3, [], 1, pos);
      assert three + [] == three;
    }
  }

  /** Un-escaping gave s back (followed by `extra`) and removed n bytes. */
  ghost predicate Restored(r: Outcome<Rbsp>, s: seq<Byte>, extra: seq<Byte>, n: nat) {
    r.Done? && r.value.bytes == s + extra && |r.value.removedAt| == n
  }

  lemma RestoredPlain(b: Byte, rest: seq<Byte>, z: nat, pos: nat, s: seq<Byte>, extra: seq<Byte>, n: nat)
    requires z < 2 || b > 3
    requires Restored(UnescapeFrom(rest, if b == 0 then z + 1 else 0, pos + 1), s, extra, n)
    ensures Restored(UnescapeFrom([b] + rest, z, pos), [b] + s, extra, n)
  {
    hide UnescapeFrom;
    UnescapePlain(b, rest, z, pos);
    assert [b] + (s + extra) == [b] + s + extra;
  }

  lemma RestoredEscaped(b: Byte, rest: seq<Byte>, pos: nat, s: seq<Byte>, extra: seq<Byte>, n: nat)
    requires b <= 3
    requires Restored(UnescapeFrom(rest, if b == 0 then 1 else 0, pos + 2), s, extra, n)
    ensures Restored(UnescapeFrom([3, b] + rest, 2, pos), [b] + s, extra, n + 1)
  {
    hide UnescapeFrom;
    UnescapeRemoved(b, rest, pos);
    assert [b] + (s + extra) == [b] + s + extra;
  }

  lemma EmptyRoundTrip(z: nat, pos: nat)
    requires z <= 2
    ensures EscapeFrom([], z) == [] && ZerosAfter([], z) == z
    ensures Restored(UnescapeFrom(EscapeFrom([], z) + Hiding(z), z, pos), [], if z == 1 then [3] else [],
                     if z == 2 then 1 else 0)
  {
    UnescapeHiding(z, pos);
    assert EscapeFrom([], z) + Hiding(z) == Hiding(z);
  }

  /** What the escaper wrote for s from this state is un-escaped to s. A single zero at the end is the one
      thing that is not restored: its hiding byte is taken for data. */
  ghost predicate RoundTrips(s: seq<Byte>, z: nat, pos: nat) {
    && |EscapeFrom(s, z)| >= |s|
    && var e := ZerosAfter(s, z);
       Restored(UnescapeFrom(EscapeFrom(s, z) + Hiding(e), z, pos), s, if e == 1 then [3] else [],
                |EscapeFrom(s, z)| - |s| + (if e == 2 then 1 else 0))
  }

  lemma EscapedFront(s: seq<Byte>, z: nat, end: seq<Byte>)
    requires s != []
    ensures EscapeFrom(s, z) + end
         == (if NeedsEscape(z, s[0]) then [3, s[0]] else [s[0]]) + (EscapeFrom(s[1..], NextZeros(z, s[0])) + end)
  {
    hide *;
    EscapeStep(s, z);
    var three: seq<Byte> := [3];
    var tail := EscapeFrom(s[1..], NextZeros(z, s[0]));
    if NeedsEscape(z, s[0]) {
      assert three + [s[0]] == [3, s[0]];
      Regroup(three + [s[0]], tail, end);
    } else {
      var none: seq<Byte> := [];
      assert none + [s[0]] == [s[0]];
      Regroup([s[0]], tail, end);
    }
  }

  lemma Regroup(a: seq<Byte>, b: seq<Byte>, c: seq<Byte>)
    ensures a + b + c == a + (b + c)
  {
  }

  lemma RoundTripsEscaped(s: seq<Byte>, z: nat, pos: nat)
    requires s != [] && NeedsEscape(z, s[0]) && RoundTrips(s[1..], NextZeros(z, s[0]), pos + 2)
    ensures RoundTrips(s, z, pos)
  {
    hide EscapeFrom, UnescapeFrom, ZerosAfter, Hiding, Restored;
    EscapeStep(s, z);
    var b, e := s[0], ZerosAfter(s, z);
    EscapedFront(s, z, Hiding(e));
    assert s == [b] + s[1..];
    RestoredEscaped(b, EscapeFrom(s[1..], NextZeros(z, b)) + Hiding(e), pos, s[1..], if e == 1 then [3] else [],
                    |EscapeFrom(s, z)| - |s| + (if e == 2 then 1 else 0) - 1);
  }

  lemma RoundTripsPlain(s: seq<Byte>, z: nat, pos: nat)
    requires z <= 2 && s != [] && !NeedsEscape(z, s[0]) && RoundTrips(s[1..], NextZeros(z, s[0]), pos + 1)
    ensures RoundTrips(s, z, pos)
  {
    hide EscapeFrom, UnescapeFrom, ZerosAfter, Hiding, Restored;
    EscapeStep(s, z);
    var b, e := s[0], ZerosAfter(s, z);
    EscapedFront(s, z, Hiding(e));
    assert s == [b] + s[1..];
    RestoredPlain(b, EscapeFrom(s[1..], NextZeros(z, b)) + Hiding(e), z, pos, s[1..], if e == 1 then [3] else [],
                  |EscapeFrom(s, z)| - |s| + (if e == 2 then 1 else 0));
  }

  /** Un-escaping what the escaper wrote, from any state. */
  lemma {:induction false} UnescapeAfterEscape(s: seq<Byte>, z: nat, pos: nat)
    requires z <= 2
    ensures RoundTrips(s, z, pos)
  {
    if s == [] {
      EmptyRoundTrip(z, pos);
    } else if NeedsEscape(z, s[0]) {
      hide RoundTrips;
      UnescapeAfterEscape(s[1..], NextZeros(z, s[0]), pos + 2);
      RoundTripsEscaped(s, z, pos);
    } else {
      hide RoundTrips;
      UnescapeAfterEscape(s[1..], NextZeros(z, s[0]), pos + 1);
      RoundTripsPlain(s, z, pos);
    }
  }

  /** How many zero bytes an RBSP ends in. */
  function TrailingZeros(s: seq<Byte>): nat {
    if s == [] || s[|s| - 1] != 0 then 0 else 1 + TrailingZeros(s[..|s| - 1])
  }

  lemma {:induction false} ZerosAfterIsParity(s: seq<Byte>)
    ensures ZerosAfter(s, 0) == if TrailingZeros(s) == 0 then 0 else if TrailingZeros(s) % 2 == 1 then 1 else 2
  {
    if s != [] {
      var init, b := s[..|s| - 1], s[|s| - 1];
      EscapeSnoc(init, b, 0);
      assert init + [b] == s;
      ZerosAfterIsParity(init);
    }
  }

  /** The payload survives exactly when it ends in an even number of zero bytes
      (whole cabac_zero_words, or none). */
  lemma EscapeRoundTrip(s: seq<Byte>)
    ensures Unescape(Escape(s)).Done?
    ensures Unescape(Escape(s)).value.bytes == s <==> TrailingZeros(s) % 2 == 0
    ensures TrailingZeros(s) % 2 == 1 ==> Unescape(Escape(s)).value.bytes == s + [3]
  {
    UnescapeAfterEscape(s, 0, 0);
    ZerosAfterIsParity(s);
  }

  /** Every accepted NAL unit is the escaped form of what was read from it. */
  lemma {:induction false} AcceptedFrom(t: seq<Byte>, z: nat, pos: nat)
    requires z <= 2 && UnescapeFrom(t, z, pos).Done?
    ensures var s := UnescapeFrom(t, z, pos).value.bytes;
            EscapeFrom(s, z) + Hiding(ZerosAfter(s, z)) == t
    decreases t, 1
  {
    if t == [] {
    } else if z == 2 && t[0] == 3 {
      if |t| == 1 {
        assert t == [3];
      } else {
        AcceptedEscaped(t, pos);
      }
    } else {
      var b, rest, z' := t[0], t[1..], if t[0] == 0 then z + 1 else 0;
      assert t == [b] + rest;
      UnescapePlain(b, rest, z, pos);
      AcceptedFrom(rest, z', pos + 1);
      hide UnescapeFrom, EscapeFrom, ZerosAfter, Hiding;
      var s, s' := UnescapeFrom(t, z, pos).value.bytes, UnescapeFrom(rest, z', pos + 1).value.bytes;
      assert s == [b] + s' && s[1..] == s';
      EscapeStep(s, z);
    }
  }

  lemma AcceptedNext(t: seq<Byte>, pos: nat)
    requires |t| > 1 && t[0] == 3 && UnescapeFrom(t, 2, pos).Done?
    ensures t[1] <= 3
  {
  }

  lemma {:induction false} AcceptedEscaped(t: seq<Byte>, pos: nat)
    requires |t| > 1 && t[0] == 3 && UnescapeFrom(t, 2, pos).Done?
    ensures var s := UnescapeFrom(t, 2, pos).value.bytes;
            EscapeFrom(s, 2) + Hiding(ZerosAfter(s, 2)) == t
    decreases t, 0
  {
    hide UnescapeFrom, EscapeFrom, ZerosAfter, Hiding;
    AcceptedNext(t, pos);
    var b, rest, z' := t[1], t[2..], if t[1] == 0 then 1 else 0;
    assert t == [3, b] + rest;
    UnescapeRemoved(b, rest, pos);
    var u := UnescapeFrom(rest, z', pos + 2);
    assert u.Done? && UnescapeFrom(t, 2, pos).value.bytes == [b] + u.value.bytes;
    AcceptedFrom(rest, z', pos + 2);
    var s := [b] + u.value.bytes;
    assert s[1..] == u.value.bytes;
    EscapeStep(s, 2);
  }

  lemma AcceptedIsEscaped(t: seq<Byte>)
    requires Unescape(t).Done?
    ensures Escape(Unescape(t).value.bytes) == t
  {
    AcceptedFrom(t, 0, 0);
  }

  // ---- the un-escaper, in place ----

  /** What the loop has produced so far, followed by the rest of the run. */
  function Resume(done: seq<Byte>, removed: seq<nat>, rest: Outcome<Rbsp>): Outcome<Rbsp> {
    if rest.Thrown? then Thrown else Done(Rbsp(done + rest.value.bytes, removed + rest.value.removedAt))
  }

  /** The loop has read r bytes of the NAL unit. */
  ghost predicate Running(nal: seq<Byte>, done: seq<Byte>, removed: seq<nat>, z: nat, r: nat) {
    r <= |nal| && z <= 2 && Unescape(nal) == Resume(done, removed, UnescapeFrom(nal[r..], z, r))
  }

  lemma RunStart(nal: seq<Byte>)
    ensures Running(nal, [], [], 0, 0)
  {
    var u := Unescape(nal);
    assert nal[0..] == nal;
    if u.Done? {
      assert [] + u.value.bytes == u.value.bytes && [] + u.value.removedAt == u.value.removedAt;
    }
  }

  lemma RunPlain(nal: seq<Byte>, done: seq<Byte>, removed: seq<nat>, z: nat, r: nat)
    requires Running(nal, done, removed, z, r) && r < |nal| && (z < 2 || nal[r] > 3)
    ensures Running(nal, done + [nal[r]], removed, if nal[r] == 0 then z + 1 else 0, r + 1)
  {
    var b, rest := nal[r], nal[r + 1..];
    assert nal[r..] == [b] + rest;
    UnescapePlain(b, rest, z, r);
    hide UnescapeFrom;
    var u := UnescapeFrom(rest, if b == 0 then z + 1 else 0, r + 1);
    if u.Done? {
      assert done + ([b] + u.value.bytes) == done + [b] + u.value.bytes;
    }
  }

  lemma RunRemoved(nal: seq<Byte>, done: seq<Byte>, removed: seq<nat>, r: nat)
    requires Running(nal, done, removed, 2, r) && r + 1 < |nal| && nal[r] == 3 && nal[r + 1] <= 3
    ensures Running(nal, done + [nal[r + 1]], removed + [r], if nal[r + 1] == 0 then 1 else 0, r + 2)
  {
    var b, rest := nal[r + 1], nal[r + 2..];
    assert nal[r..] == [3, b] + rest;
    UnescapeRemoved(b, rest, r);
    hide UnescapeFrom;
    var u := UnescapeFrom(rest, if b == 0 then 1 else 0, r + 2);
    if u.Done? {
      assert done + ([b] + u.value.bytes) == done + [b] + u.value.bytes;
      assert removed + ([r] + u.value.removedAt) == removed + [r] + u.value.removedAt;
    }
  }

  /** The two checks inside the loop. */
  lemma RunFails(nal: seq<Byte>, done: seq<Byte>, removed: seq<nat>, r: nat)
    requires Running(nal, done, removed, 2, r) && r < |nal|
    requires nal[r] < 3 || (nal[r] == 3 && r + 1 < |nal| && nal[r + 1] > 3)
    ensures Unescape(nal) == Thrown
  {
    var t := nal[r..];
    assert t[0] == nal[r] && (r + 1 < |nal| ==> t[1] == nal[r + 1]);
  }

  lemma RunLastRemoved(nal: seq<Byte>, done: seq<Byte>, removed: seq<nat>, r: nat)
    requires Running(nal, done, removed, 2, r) && r + 1 == |nal| && nal[r] == 3
    ensures Unescape(nal) == Done(Rbsp(done, removed + [r]))
  {
    assert nal[r..] == [3];
    assert [r] + [] == [r] && done + [] == done;
  }

  lemma RunEnd(nal: seq<Byte>, done: seq<Byte>, removed: seq<nat>, z: nat)
    requires Running(nal, done, removed, z, |nal|)
    ensures Unescape(nal) == if z != 0 then Thrown else Done(Rbsp(done, removed))
  {
    assert done + [] == done && removed + [] == removed;
  }

  /** Drop the zero bytes at the end (cabac_zero_words of a VCL NAL unit). */
  function StripZeros(s: seq<Byte>): (r: seq<Byte>)
    ensures r <= s && (r != [] ==> r[|r| - 1] != 0)
    ensures |r| == |s| - TrailingZeros(s)
  {
    if s == [] || s[|s| - 1] != 0 then s else StripZeros(s[..|s| - 1])
  }

  ghost predicate AllZero(s: seq<Byte>) {
    forall i :: 0 <= i < |s| ==> s[i] == 0
  }

  lemma {:induction false} StripsAll(s: seq<Byte>)
    ensures StripZeros(s) == [] <==> AllZero(s)
  {
    if s != [] {
      StripsAll(s[..|s| - 1]);
      assert AllZero(s) <==> s[|s| - 1] == 0 && AllZero(s[..|s| - 1]) by {
        forall i | 0 <= i < |s| - 1
          ensures s[i] == s[..|s| - 1][i]
        {
        }
      }
    }
  }

  /** One buffer, read ahead of where it is written. Returns the new size of the buffer and
      the positions of the removed bytes, and whether all reads were inside: the search for the last byte that is
      not zero runs off the front of the buffer exactly if there is none. */
  method ConvertPayloadToRbsp(buf: array<Byte>, isVcl: bool) returns (r: Outcome<(nat, seq<nat>)>, inside: bool)
    modifies buf
    ensures r.Done? <==> Unescape(old(buf[..])).Done?
    ensures r.Done? ==>
      var u := Unescape(old(buf[..])).value;
      && r.value.0 <= buf.Length && r.value.1 == u.removedAt
      && buf[..r.value.0] == (if isVcl then StripZeros(u.bytes) else u.bytes)
      && (inside <==> !(isVcl && AllZero(u.bytes)))
    ensures r.Thrown? ==> inside
  {
    hide *;
    inside := true;
    var main := RemovePreventionBytes(buf);
    if main.Thrown? {
      return Thrown, inside;
    }
    var (itWrite, removed) := main.value;
    if isVcl {
      ghost var bytes := buf[..itWrite];
      StripsAll(bytes);
      while itWrite > 0 && buf[itWrite - 1] == 0
        invariant itWrite <= buf.Length && StripZeros(bytes) == StripZeros(buf[..itWrite])
      {
        StripStep(buf[..itWrite]);
        assert buf[..itWrite][..itWrite - 1] == buf[..itWrite - 1];
        itWrite := itWrite - 1;
      }
      StripStep(buf[..itWrite]);
      inside := itWrite > 0;
    }
    return Done((itWrite, removed)), inside;
  }

  /** The test on the first byte. It looks at the reserved zero bit of the header. */
  predicate TakenForVcl(first: Byte) {
    first / 64 % 2 == 0
  }

  /** The payload part of reading a unit. */
  method ReadPayload(buf: array<Byte>) returns (r: Outcome<(nat, seq<nat>)>, inside: bool)
    requires buf.Length > 0
    modifies buf
    ensures r.Done? <==> Unescape(old(buf[..])).Done?
    ensures r.Done? ==>
      var u := Unescape(old(buf[..])).value;
      && r.value.0 <= buf.Length && r.value.1 == u.removedAt
      && buf[..r.value.0] == (if TakenForVcl(old(buf[0])) then StripZeros(u.bytes) else u.bytes)
      && (inside <==> !(TakenForVcl(old(buf[0])) && AllZero(u.bytes)))
    ensures r.Thrown? ==> inside
  {
    hide Unescape, StripZeros, AllZero;
    r, inside := ConvertPayloadToRbsp(buf, buf[0] / 64 % 2 == 0);
  }

  /** A unit of two zero bytes and a hiding 3 is accepted, and has nothing left to stop the search. */
  lemma ReadsInFront()
    ensures TakenForVcl(0) && Unescape([0, 0, 3]) == Done(Rbsp([0, 0], [2])) && AllZero([0, 0])
  {
    UnescapeHiding(2, 2);
    hide UnescapeFrom;
    var none: seq<Byte>, zero: seq<Byte>, three: seq<Byte> := [], [0], [3];
    assert Hiding(2) == three;
    assert zero + none == zero && zero + zero == [0, 0];
    UnescapePlain(0, three, 1, 1);
    UnescapePlain(0, [0] + three, 0, 0);
    assert [0] + ([0] + three) == [0, 0, 3];
  }

  lemma StripStep(s: seq<Byte>)
    ensures StripZeros(s) == if s == [] || s[|s| - 1] != 0 then s else StripZeros(s[..|s| - 1])
  {
  }

  method RemovePreventionBytes(buf: array<Byte>) returns (r: Outcome<(nat, seq<nat>)>)
    modifies buf
    ensures r.Done? <==> Unescape(old(buf[..])).Done?
    ensures r.Done? ==> r.value.0 <= buf.Length
    ensures r.Done? ==> Unescape(old(buf[..])).value == Rbsp(buf[..r.value.0], r.value.1)
  {
    hide Unescape, Running;
    ghost var nal := buf[..];
    var itRead, itWrite, zeroCount := 0, 0, 0;
    var removed: seq<nat> := [];
    RunStart(nal);
    while itRead != buf.Length
      invariant itWrite <= itRead <= buf.Length == |nal| && zeroCount <= 2
      invariant forall i :: itRead <= i < |nal| ==> buf[i] == nal[i]
      invariant Running(nal, buf[..itWrite], removed, zeroCount, itRead)
    {
      ghost var done := buf[..itWrite];
      if zeroCount >= 2 && buf[itRead] < 3 {
        RunFails(nal, done, removed, itRead);
        return Thrown;
      }
      if zeroCount == 2 && buf[itRead] == 3 {
        if itRead + 1 == buf.Length {
          RunLastRemoved(nal, done, removed, itRead);
          return Done((itWrite, removed + [itRead]));
        }
        if buf[itRead + 1] > 3 {
          RunFails(nal, done, removed, itRead);
          return Thrown;
        }
        RunRemoved(nal, done, removed, itRead);
        removed := removed + [itRead];
        itRead := itRead + 1;
        zeroCount := 0;
      } else {
        RunPlain(nal, done, removed, zeroCount, itRead);
      }
      zeroCount := if buf[itRead] == 0 then zeroCount + 1 else 0;
      ghost var b := nal[itRead];
      buf[itWrite] := buf[itRead];
      itRead, itWrite := itRead + 1, itWrite + 1;
      assert buf[..itWrite] == done + [b];
    }
    RunEnd(nal, buf[..itWrite], removed, zeroCount);
    if zeroCount != 0 {
      return Thrown;
    }
    return Done((itWrite, removed));
  }

  // ---- counting the insertions without escaping ----

  /** How many bytes the escaper inserts, the hiding byte at the end not counted. */
  function Added(s: seq<Byte>, z: nat): nat {
    if s == [] then 0
    else (if NeedsEscape(z, s[0]) then 1 else 0) + Added(s[1..], NextZeros(z, s[0]))
  }

  lemma {:induction false} AddedIsGrowth(s: seq<Byte>, z: nat)
    ensures |EscapeFrom(s, z)| == |s| + Added(s, z)
  {
    if s != [] {
      AddedIsGrowth(s[1..], NextZeros(z, s[0]));
    }
  }

  predicate PairAt(s: seq<Byte>, i: nat) {
    i + 1 < |s| && s[i] == 0 && s[i + 1] == 0
  }

  /** search_n(first, last, 2, 0): the first two zeros inside [first, last), or last. */
  function SearchTwoZeros(s: seq<Byte>, first: nat, last: nat): (r: nat)
    requires first <= last <= |s|
    ensures first <= r <= last
    ensures r < last ==> r + 2 <= last && PairAt(s, r)
    ensures forall i :: first <= i < r && i + 2 <= last ==> !PairAt(s, i)
    decreases last - first
  {
    if first + 2 > last then last
    else if s[first] == 0 && s[first + 1] == 0 then first
    else SearchTwoZeros(s, first + 1, last)
  }

  /** Nothing is inserted before the first pair of zeros. */
  lemma {:induction false} SkipToPair(s: seq<Byte>, from: nat, z: nat, p: nat)
    requires from <= p && PairAt(s, p) && z <= 1 && (z == 1 ==> from < p && s[from] != 0)
    requires forall i :: from <= i < p ==> !PairAt(s, i)
    ensures Added(s[from..], z) == Added(s[p..], 0)
    decreases p - from
  {
    if from < p {
      assert !PairAt(s, from);
      assert s[from..][0] == s[from] && s[from..][1..] == s[from + 1..];
      SkipToPair(s, from + 1, NextZeros(z, s[from]), p);
    }
  }

  /** A third byte up to 3 behind a pair costs one insertion; counting restarts at that byte. */
  lemma PairCost(s: seq<Byte>, p: nat)
    requires PairAt(s, p) && p + 2 < |s|
    ensures Added(s[p..], 0) == (if s[p + 2] <= 3 then 1 else 0) + Added(s[p + 2..], 0)
  {
    AddedStep(s, p, 0);
    AddedStep(s, p + 1, 1);
    AddedStep(s, p + 2, 2);
    AddedStep(s, p + 2, 0);
  }

  lemma AddedStep(s: seq<Byte>, i: nat, z: nat)
    requires i < |s|
    ensures Added(s[i..], z) == (if NeedsEscape(z, s[i]) then 1 else 0) + Added(s[i + 1..], NextZeros(z, s[i]))
  {
    assert s[i..][0] == s[i] && s[i..][1..] == s[i + 1..];
  }

  /** A pair with nothing behind it costs nothing. */
  lemma {:induction false} NoPairLeft(s: seq<Byte>, from: nat, z: nat)
    requires from <= |s| && z <= 1 && (z == 1 && from + 1 < |s| ==> s[from] != 0)
    requires forall i :: from <= i && i + 2 < |s| ==> !PairAt(s, i)
    ensures Added(s[from..], z) == 0
    decreases |s| - from
  {
    if from < |s| {
      AddedStep(s, from, z);
      if from + 1 < |s| {
        assert from + 2 < |s| ==> !PairAt(s, from);
        NoPairLeft(s, from + 1, NextZeros(z, s[from]));
      }
    }
  }

  /** The iterator loop: it never passes the end and counts exactly the inserted bytes. */
  method CountStartCodeEmulations(rbsp: seq<Byte>) returns (cnt: nat)
    ensures cnt == |EscapeFrom(rbsp, 0)| - |rbsp|
  {
    hide Added, EscapeFrom, NextZeros;
    cnt := 0;
    var it := 0;
    assert rbsp[0..] == rbsp;
    while it != |rbsp|
      invariant it <= |rbsp| && cnt + Added(rbsp[it..], 0) == Added(rbsp, 0)
      decreases |rbsp| - it
    {
      var found := it;
      while true
        invariant it <= found < |rbsp| && Added(rbsp[it..], 0) == Added(rbsp[found..], 0)
        decreases |rbsp| - found
      {
        ghost var from := found;
        found := SearchTwoZeros(rbsp, found, |rbsp| - 1);
        if found == |rbsp| - 1 {
          NoPairLeft(rbsp, from, 0);
        } else {
          SkipToPair(rbsp, from, 0, found);
          PairCost(rbsp, found);
        }
        found := found + 1;
        if found == |rbsp| {
          break;
        }
        found := found + 1;
        if rbsp[found] <= 3 {
          break;
        }
      }
      EmptyTail(rbsp);
      it := found;
      if found != |rbsp| {
        cnt := cnt + 1;
      }
    }
    EmptyTail(rbsp);
    AddedIsGrowth(rbsp, 0);
  }

  lemma EmptyTail(s: seq<Byte>)
    ensures Added(s[|s|..], 0) == 0
  {
  }

  /** The encoder's count is what the decoder removes again, its last byte aside. */
  lemma CountIsRemoved(s: seq<Byte>)
    ensures Unescape(Escape(s)).Done?
    ensures |Unescape(Escape(s)).value.removedAt|
         == Added(s, 0) + (if TrailingZeros(s) > 0 && TrailingZeros(s) % 2 == 0 then 1 else 0)
  {
    UnescapeAfterEscape(s, 0, 0);
    ZerosAfterIsParity(s);
    AddedIsGrowth(s, 0);
  }
}

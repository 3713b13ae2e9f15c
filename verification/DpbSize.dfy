/** Reordering and buffer sizes per temporal layer, as the encoder configuration derives them
    from the GOP structure. */
module DpbSize {

  const MAX_TLAYER := 7

  /** One GOP entry: its POC, its temporal layer and the delta POCs of both reference lists. */
  datatype Entry = Entry(poc: int, temporalId: nat, list0: seq<int>, list1: seq<int>)

  ghost predicate ValidGop(gop: seq<Entry>) {
    forall i :: 0 <= i < |gop| ==> gop[i].temporalId < MAX_TLAYER
  }

  function Max(a: int, b: int): int { if a >= b then a else b }

  // ---- the demands of one entry ----

  /** Entries of list1 that are not in list0. */
  function Extra(list0: seq<int>, list1: seq<int>): nat {
    if list1 == [] then 0
    else Extra(list0, list1[..|list1| - 1]) + (if list1[|list1| - 1] in list0 then 0 else 1)
  }

  function RefCount(e: Entry): nat {
    |e.list0| + Extra(e.list0, e.list1)
  }

  /** The last entry in coding order, among the first n, whose POC is not above `poc`; 0 if none. */
  function HighestNotAbove(gop: seq<Entry>, poc: int, n: nat): nat
    requires n <= |gop|
  {
    if n == 0 then 0 else if gop[n - 1].poc <= poc then n - 1 else HighestNotAbove(gop, poc, n - 1)
  }

  /** Entries among the first n that precede e in coding order of its layers but follow it in output. */
  function Overtaking(gop: seq<Entry>, e: Entry, n: nat): nat
    requires n <= |gop|
  {
    if n == 0 then 0
    else Overtaking(gop, e, n - 1) + (if gop[n - 1].temporalId <= e.temporalId && gop[n - 1].poc > e.poc then 1 else 0)
  }

  lemma {:induction false} HighestBound(gop: seq<Entry>, poc: int, n: nat)
    requires n <= |gop|
    ensures HighestNotAbove(gop, poc, n) <= |gop|
  {
    if n > 0 {
      HighestBound(gop, poc, n - 1);
    }
  }

  function Reorder(gop: seq<Entry>, e: Entry): nat {
    HighestBound(gop, e.poc, |gop|);
    Overtaking(gop, e, HighestNotAbove(gop, e.poc, |gop|))
  }

  // ---- the same demands as sets ----

  /** The places of list 1 that name a picture list 0 does not. */
  ghost function NewPlaces(list0: seq<int>, list1: seq<int>): set<nat> {
    set j: nat | j < |list1| && list1[j] !in list0
  }

  /** The pictures an entry keeps: all places of list 0 and the new ones of list 1. */
  ghost function PlacesTaken(e: Entry): nat {
    |e.list0| + |NewPlaces(e.list0, e.list1)|
  }

  /** The pictures it refers to, as distances. */
  ghost function References(list0: seq<int>, list1: seq<int>): set<int> {
    (set d | d in list0) + (set d | d in list1)
  }

  ghost predicate NoRepeats(s: seq<int>) {
    forall i, j :: 0 <= i < j < |s| ==> s[i] != s[j]
  }

  /** Entries of the same or lower layers that follow e in output but are coded before an entry that does not. */
  ghost function Overtakers(gop: seq<Entry>, e: Entry): set<nat> {
    set j: nat | j < |gop| && gop[j].temporalId <= e.temporalId && gop[j].poc > e.poc && StillToCome(gop, e, j)
  }

  ghost predicate StillToCome(gop: seq<Entry>, e: Entry, j: nat) {
    exists i :: j < i < |gop| && gop[i].poc <= e.poc
  }

  lemma {:induction false} ExtraIsNew(list0: seq<int>, list1: seq<int>)
    ensures Extra(list0, list1) == |NewPlaces(list0, list1)|
  {
    if list1 == [] {
      assert NewPlaces(list0, list1) == {};
    } else {
      var n: nat := |list1| - 1;
      ExtraIsNew(list0, list1[..n]);
      var before := NewPlaces(list0, list1[..n]);
      assert NewPlaces(list0, list1) == if list1[n] in list0 then before else before + {n};
    }
  }

  /** The count is the number of places taken: all of list 0, and those of list 1 that are new. */
  lemma CountIsPlaces(e: Entry)
    ensures RefCount(e) == PlacesTaken(e)
  {
    ExtraIsNew(e.list0, e.list1);
  }

  lemma {:induction false} ListAsSet(s: seq<int>)
    requires NoRepeats(s)
    ensures |set d | d in s| == |s|
  {
    if s == [] {
      assert (set d | d in s) == {};
    } else {
      var n := |s| - 1;
      ListAsSet(s[..n]);
      assert (set d | d in s) == (set d | d in s[..n]) + {s[n]};
    }
  }

  lemma OneMoreReference(list0: seq<int>, list1: seq<int>, d: int)
    requires d !in list1
    ensures |References(list0, list1 + [d])| == |References(list0, list1)| + if d in list0 then 0 else 1
  {
    var before := References(list0, list1);
    assert References(list0, list1 + [d]) == before + {d};
    assert d in before <==> d in list0;
  }

  lemma LastIsNew(s: seq<int>)
    requires NoRepeats(s) && s != []
    ensures NoRepeats(s[..|s| - 1]) && s[|s| - 1] !in s[..|s| - 1] && s == s[..|s| - 1] + [s[|s| - 1]]
  {
  }

  lemma OneList(list0: seq<int>)
    requires NoRepeats(list0)
    ensures |References(list0, [])| == |list0|
  {
    ListAsSet(list0);
    assert References(list0, []) == set d | d in list0;
  }

  lemma {:induction false} ReferencesCounted(list0: seq<int>, list1: seq<int>)
    requires NoRepeats(list0) && NoRepeats(list1)
    ensures |References(list0, list1)| == |list0| + Extra(list0, list1)
  {
    hide References, NoRepeats;
    if list1 == [] {
      OneList(list0);
    } else {
      var n := |list1| - 1;
      LastIsNew(list1);
      ReferencesCounted(list0, list1[..n]);
      OneMoreReference(list0, list1[..n], list1[n]);
    }
  }

  /** Without repeats in a list it is the number of different pictures referred to. */
  lemma CountIsReferences(e: Entry)
    requires NoRepeats(e.list0) && NoRepeats(e.list1)
    ensures RefCount(e) == |References(e.list0, e.list1)|
  {
    ReferencesCounted(e.list0, e.list1);
  }

  lemma {:induction false} HighestMeans(gop: seq<Entry>, poc: int, n: nat, j: nat)
    requires n <= |gop|
    ensures j < HighestNotAbove(gop, poc, n) <==> exists i :: j < i < n && gop[i].poc <= poc
  {
    if n > 0 {
      HighestMeans(gop, poc, n - 1, j);
    }
  }

  ghost function OvertakersBefore(gop: seq<Entry>, e: Entry, n: nat): set<nat>
    requires n <= |gop|
  {
    set j: nat | j < n && gop[j].temporalId <= e.temporalId && gop[j].poc > e.poc
  }

  lemma OneMore(a: set<nat>, b: set<nat>, n: nat, grows: bool)
    requires n !in a && forall j :: j in b <==> j in a || (j == n && grows)
    ensures |b| == |a| + if grows then 1 else 0
  {
    if grows {
      assert b == a + {n};
    } else {
      assert b == a;
    }
  }

  lemma OneMoreOvertakes(gop: seq<Entry>, e: Entry, n: nat)
    requires n < |gop|
    ensures |OvertakersBefore(gop, e, n + 1)| ==
            |OvertakersBefore(gop, e, n)| + (if gop[n].temporalId <= e.temporalId && gop[n].poc > e.poc then 1 else 0)
  {
    OneMore(OvertakersBefore(gop, e, n), OvertakersBefore(gop, e, n + 1), n,
            gop[n].temporalId <= e.temporalId && gop[n].poc > e.poc);
  }

  lemma {:induction false} OvertakingCounts(gop: seq<Entry>, e: Entry, n: nat)
    requires n <= |gop|
    ensures Overtaking(gop, e, n) == |OvertakersBefore(gop, e, n)|
  {
    hide OvertakersBefore;
    if n == 0 {
      NoneOvertakes(gop, e);
    } else {
      OvertakingCounts(gop, e, n - 1);
      OneMoreOvertakes(gop, e, n - 1);
    }
  }

  lemma NoneOvertakes(gop: seq<Entry>, e: Entry)
    ensures |OvertakersBefore(gop, e, 0)| == 0
  {
    assert OvertakersBefore(gop, e, 0) == {};
  }

  /** The reordering demand is the number of pictures that have to wait for a later coded one. */
  lemma ReorderIsOvertakers(gop: seq<Entry>, e: Entry)
    ensures Reorder(gop, e) == |Overtakers(gop, e)|
  {
    HighestBound(gop, e.poc, |gop|);
    var n := HighestNotAbove(gop, e.poc, |gop|);
    OvertakingCounts(gop, e, n);
    forall j: nat
      ensures j < n <==> StillToCome(gop, e, j)
    {
      HighestMeans(gop, e.poc, |gop|, j);
    }
    assert Overtakers(gop, e) == OvertakersBefore(gop, e, n);
  }

  // ---- what a layer table must satisfy ----

  /** Every entry fits its own layer: the pictures that wait, and the pictures kept and itself. */
  ghost predicate Covers(gop: seq<Entry>, reorder: seq<int>, buffering: seq<int>) {
    && |reorder| == |buffering| == MAX_TLAYER
    && (forall t :: 0 <= t < MAX_TLAYER ==> reorder[t] >= 0 && buffering[t] >= 1)
    && (forall i :: 0 <= i < |gop| && gop[i].temporalId < MAX_TLAYER ==>
          && reorder[gop[i].temporalId] >= |Overtakers(gop, gop[i])|
          && buffering[gop[i].temporalId] >= PlacesTaken(gop[i]) + 1)
  }

  /** No layer demands more than a higher one, and reordering fits the buffer. */
  ghost predicate Closed(reorder: seq<int>, buffering: seq<int>) {
    && |reorder| == |buffering|
    && (forall s, t :: 0 <= s <= t < |reorder| ==> reorder[s] <= reorder[t] && buffering[s] <= buffering[t])
    && (forall t :: 0 <= t < |reorder| ==> reorder[t] <= buffering[t] - 1)
  }

  ghost predicate Below(a: seq<int>, b: seq<int>) {
    |a| == |b| && forall t :: 0 <= t < |a| ==> a[t] <= b[t]
  }

  // ---- the derived values ----

  /** The largest reordering demand of layer t among the first n entries. */
  function RawReorder(gop: seq<Entry>, n: nat, t: nat): nat
    requires n <= |gop|
  {
    if n == 0 then 0
    else
      var r := RawReorder(gop, n - 1, t);
      if gop[n - 1].temporalId == t then Max(r, Reorder(gop, gop[n - 1])) else r
  }

  function RawBuffering(gop: seq<Entry>, n: nat, t: nat): nat
    requires n <= |gop|
  {
    if n == 0 then 1
    else
      var r := RawBuffering(gop, n - 1, t);
      if gop[n - 1].temporalId == t then Max(r, RefCount(gop[n - 1]) + 1) else r
  }

  function ClosedReorder(raw: seq<int>, t: nat): int
    requires t < |raw|
  {
    if t == 0 then raw[0] else Max(raw[t], ClosedReorder(raw, t - 1))
  }

  function ClosedBuffering(rawReorder: seq<int>, raw: seq<int>, t: nat): int
    requires t < |raw| == |rawReorder|
  {
    var own := Max(raw[t], ClosedReorder(rawReorder, t) + 1);
    if t == 0 then own else Max(own, ClosedBuffering(rawReorder, raw, t - 1))
  }

  function RawReorders(gop: seq<Entry>): (s: seq<int>)
    ensures |s| == MAX_TLAYER && forall t :: 0 <= t < MAX_TLAYER ==> s[t] == RawReorder(gop, |gop|, t)
  {
    seq(MAX_TLAYER, t requires 0 <= t < MAX_TLAYER => RawReorder(gop, |gop|, t))
  }

  function RawBufferings(gop: seq<Entry>): (s: seq<int>)
    ensures |s| == MAX_TLAYER && forall t :: 0 <= t < MAX_TLAYER ==> s[t] == RawBuffering(gop, |gop|, t)
  {
    seq(MAX_TLAYER, t requires 0 <= t < MAX_TLAYER => RawBuffering(gop, |gop|, t))
  }

  // ---- they are the least ----

  lemma {:induction false} RawCovers(gop: seq<Entry>, n: nat, i: nat)
    requires i < n <= |gop|
    ensures RawReorder(gop, n, gop[i].temporalId) >= |Overtakers(gop, gop[i])|
    ensures RawBuffering(gop, n, gop[i].temporalId) >= PlacesTaken(gop[i]) + 1
  {
    ReorderIsOvertakers(gop, gop[i]);
    CountIsPlaces(gop[i]);
    hide Overtakers, PlacesTaken, Reorder, RefCount;
    if i < n - 1 {
      RawCovers(gop, n - 1, i);
    }
  }

  lemma CoversLayer(gop: seq<Entry>, t: nat, reorder: seq<int>, buffering: seq<int>)
    requires t < MAX_TLAYER && Covers(gop, reorder, buffering)
    ensures |reorder| == |buffering| == MAX_TLAYER && reorder[t] >= 0 && buffering[t] >= 1
  {
  }

  lemma CoversEntry(gop: seq<Entry>, i: nat, reorder: seq<int>, buffering: seq<int>)
    requires i < |gop| && gop[i].temporalId < MAX_TLAYER && Covers(gop, reorder, buffering)
    ensures |reorder| == |buffering| == MAX_TLAYER
    ensures Reorder(gop, gop[i]) <= reorder[gop[i].temporalId] && RefCount(gop[i]) + 1 <= buffering[gop[i].temporalId]
  {
    hide Overtakers, PlacesTaken, Reorder, RefCount;
    ReorderIsOvertakers(gop, gop[i]);
    CountIsPlaces(gop[i]);
  }

  lemma {:induction false} RawLeast(gop: seq<Entry>, n: nat, t: nat, reorder: seq<int>, buffering: seq<int>)
    requires n <= |gop| && t < MAX_TLAYER && Covers(gop, reorder, buffering)
    ensures |reorder| == |buffering| == MAX_TLAYER
    ensures RawReorder(gop, n, t) <= reorder[t] && RawBuffering(gop, n, t) <= buffering[t]
  {
    hide *;
    CoversLayer(gop, t, reorder, buffering);
    if n == 0 {
      RawStart(gop, t);
    } else {
      RawLeast(gop, n - 1, t, reorder, buffering);
      RawStep(gop, n - 1, t);
      if gop[n - 1].temporalId == t {
        CoversEntry(gop, n - 1, reorder, buffering);
      }
    }
  }

  lemma RawStart(gop: seq<Entry>, t: nat)
    ensures RawReorder(gop, 0, t) == 0 && RawBuffering(gop, 0, t) == 1
  {
  }

  lemma RawStep(gop: seq<Entry>, n: nat, t: nat)
    requires n < |gop|
    ensures RawReorder(gop, n + 1, t) == if gop[n].temporalId != t || Reorder(gop, gop[n]) <= RawReorder(gop, n, t)
                                         then RawReorder(gop, n, t) else Reorder(gop, gop[n])
    ensures RawBuffering(gop, n + 1, t) == if gop[n].temporalId != t || RefCount(gop[n]) + 1 <= RawBuffering(gop, n, t)
                                           then RawBuffering(gop, n, t) else RefCount(gop[n]) + 1
  {
    hide Reorder, RefCount;
  }

  lemma {:induction false} ClosureMonotone(rawReorder: seq<int>, raw: seq<int>, s: nat, t: nat)
    requires s <= t < |raw| == |rawReorder|
    ensures ClosedReorder(rawReorder, s) <= ClosedReorder(rawReorder, t)
    ensures ClosedBuffering(rawReorder, raw, s) <= ClosedBuffering(rawReorder, raw, t)
    ensures raw[s] <= ClosedBuffering(rawReorder, raw, s) && rawReorder[s] <= ClosedReorder(rawReorder, s)
    ensures ClosedReorder(rawReorder, s) <= ClosedBuffering(rawReorder, raw, s) - 1
    decreases t
  {
    if s < t {
      ClosureMonotone(rawReorder, raw, s, t - 1);
    }
  }

  lemma {:induction false} ClosureLeast(rawReorder: seq<int>, raw: seq<int>, t: nat, reorder: seq<int>,
                                        buffering: seq<int>)
    requires t < |raw| == |rawReorder| && Closed(reorder, buffering)
    requires Below(rawReorder, reorder) && Below(raw, buffering)
    ensures ClosedReorder(rawReorder, t) <= reorder[t] && ClosedBuffering(rawReorder, raw, t) <= buffering[t]
  {
    if t > 0 {
      ClosureLeast(rawReorder, raw, t - 1, reorder, buffering);
      assert reorder[t - 1] <= reorder[t] && buffering[t - 1] <= buffering[t];
    }
  }

  /** The tables the encoder ends up with. */
  function FinalReorder(gop: seq<Entry>): (s: seq<int>)
    ensures |s| == MAX_TLAYER
  {
    var raw := RawReorders(gop);
    seq(MAX_TLAYER, t requires 0 <= t < MAX_TLAYER => ClosedReorder(raw, t))
  }

  function FinalBuffering(gop: seq<Entry>): (s: seq<int>)
    ensures |s| == MAX_TLAYER
  {
    var rawReorder, raw := RawReorders(gop), RawBufferings(gop);
    seq(MAX_TLAYER, t requires 0 <= t < MAX_TLAYER => ClosedBuffering(rawReorder, raw, t))
  }

  /** The smallest tables that cover every entry and are closed. */
  lemma SizesAreLeast(gop: seq<Entry>)
    requires ValidGop(gop)
    ensures Covers(gop, FinalReorder(gop), FinalBuffering(gop)) && Closed(FinalReorder(gop), FinalBuffering(gop))
    ensures forall reorder, buffering :: Covers(gop, reorder, buffering) && Closed(reorder, buffering) ==>
      Below(FinalReorder(gop), reorder) && Below(FinalBuffering(gop), buffering)
  {
    var rawReorder, raw := RawReorders(gop), RawBufferings(gop);
    var r, b := FinalReorder(gop), FinalBuffering(gop);
    hide Overtakers, PlacesTaken, RawReorder, RawBuffering, ClosedReorder, ClosedBuffering;
    forall s, t | 0 <= s <= t < MAX_TLAYER
      ensures r[s] <= r[t] && b[s] <= b[t] && r[s] <= b[s] - 1
      ensures raw[s] <= b[s] && rawReorder[s] <= r[s]
    {
      ClosureMonotone(rawReorder, raw, s, t);
    }
    forall i | 0 <= i < |gop|
      ensures r[gop[i].temporalId] >= |Overtakers(gop, gop[i])| && b[gop[i].temporalId] >= PlacesTaken(gop[i]) + 1
    {
      RawCovers(gop, |gop|, i);
    }
    forall t | 0 <= t < MAX_TLAYER
      ensures r[t] >= 0 && b[t] >= 1
    {
      assert raw[t] >= 1 by { RawBufferingPositive(gop, |gop|, t); }
    }
    forall reorder, buffering | Covers(gop, reorder, buffering) && Closed(reorder, buffering)
      ensures Below(r, reorder) && Below(b, buffering)
    {
      forall t | 0 <= t < MAX_TLAYER
        ensures rawReorder[t] <= reorder[t] && raw[t] <= buffering[t]
      {
        RawLeast(gop, |gop|, t, reorder, buffering);
      }
      forall t | 0 <= t < MAX_TLAYER
        ensures r[t] <= reorder[t] && b[t] <= buffering[t]
      {
        ClosureLeast(rawReorder, raw, t, reorder, buffering);
      }
    }
  }

  lemma {:induction false} RawBufferingPositive(gop: seq<Entry>, n: nat, t: nat)
    requires n <= |gop|
    ensures RawBuffering(gop, n, t) >= 1
  {
    if n > 0 {
      RawBufferingPositive(gop, n - 1, t);
    }
  }

  /** Hence every layer covers all entries at or below it. */
  lemma LayersCoverLower(gop: seq<Entry>, i: nat, t: nat)
    requires ValidGop(gop) && i < |gop| && gop[i].temporalId <= t < MAX_TLAYER
    ensures FinalReorder(gop)[t] >= |Overtakers(gop, gop[i])|
    ensures FinalBuffering(gop)[t] >= PlacesTaken(gop[i]) + 1
  {
    hide FinalReorder, FinalBuffering, Overtakers, PlacesTaken;
    SizesAreLeast(gop);
    assert FinalReorder(gop)[gop[i].temporalId] <= FinalReorder(gop)[t];
  }

  // ---- is it enough for the decoder? ----

  /** Entries among the first n, up to layer t, that follow `poc` in output: what a decoder of those
      layers may have to hold back when the picture arrives as number n. */
  function HeldBack(gop: seq<Entry>, t: nat, poc: int, n: nat): nat
    requires n <= |gop|
  {
    if n == 0 then 0
    else HeldBack(gop, t, poc, n - 1) + (if gop[n - 1].temporalId <= t && gop[n - 1].poc > poc then 1 else 0)
  }

  /** The derived limit of layer t covers what is held back for every picture of the layers up to t. */
  ghost predicate LimitSuffices(gop: seq<Entry>, t: nat)
    requires t < MAX_TLAYER
  {
    forall i :: 0 <= i < |gop| && gop[i].temporalId <= t ==> HeldBack(gop, t, gop[i].poc, i) <= FinalReorder(gop)[t]
  }

  /** A picture of a higher layer, up to t, is coded before this entry and follows it in output. */
  ghost predicate Overtaken(gop: seq<Entry>, t: nat, i: nat)
    requires i < |gop|
  {
    exists j :: 0 <= j < i && gop[i].temporalId < gop[j].temporalId <= t && gop[j].poc > gop[i].poc
  }

  /** Some entry up to layer t counts at least n pictures of its own and lower layers. */
  ghost predicate Counted(gop: seq<Entry>, t: nat, n: nat) {
    exists k :: 0 <= k < |gop| && gop[k].temporalId <= t && |Overtakers(gop, gop[k])| >= n
  }

  /** Pictures of higher layers, up to t, among the first n that follow this entry in output: those its own
      count leaves out. */
  function LeftOut(gop: seq<Entry>, t: nat, i: nat, n: nat): nat
    requires i < |gop| && n <= |gop|
  {
    if n == 0 then 0
    else
      LeftOut(gop, t, i, n - 1) +
      (if gop[i].temporalId < gop[n - 1].temporalId <= t && gop[n - 1].poc > gop[i].poc then 1 else 0)
  }

  /** Wherever the layer rule leaves pictures out, some entry counts as many as the rule keeps and leaves out. */
  ghost predicate Compensated(gop: seq<Entry>, t: nat) {
    forall i :: 0 <= i < |gop| && gop[i].temporalId <= t && LeftOut(gop, t, i, i) > 0 ==>
      Counted(gop, t, Overtaking(gop, gop[i], i) + LeftOut(gop, t, i, i))
  }

  lemma {:induction false} HeldBackSplits(gop: seq<Entry>, t: nat, i: nat, n: nat)
    requires i < |gop| && n <= |gop| && gop[i].temporalId <= t
    ensures HeldBack(gop, t, gop[i].poc, n) == Overtaking(gop, gop[i], n) + LeftOut(gop, t, i, n)
  {
    if n > 0 {
      HeldBackSplits(gop, t, i, n - 1);
    }
  }

  lemma {:induction false} LeftOutMeans(gop: seq<Entry>, t: nat, i: nat, n: nat)
    requires i < |gop| && n <= |gop|
    ensures LeftOut(gop, t, i, n) > 0 <==>
            exists j :: 0 <= j < n && gop[i].temporalId < gop[j].temporalId <= t && gop[j].poc > gop[i].poc
  {
    if n > 0 {
      LeftOutMeans(gop, t, i, n - 1);
    }
  }

  lemma {:induction false} OvertakingCountsAll(gop: seq<Entry>, t: nat, i: nat, n: nat)
    requires n <= i < |gop| && gop[i].temporalId <= t && !Overtaken(gop, t, i)
    ensures Overtaking(gop, gop[i], n) == HeldBack(gop, t, gop[i].poc, n)
  {
    if n > 0 {
      OvertakingCountsAll(gop, t, i, n - 1);
    }
  }

  lemma {:induction false} OvertakingGrows(gop: seq<Entry>, e: Entry, m: nat, n: nat)
    requires m <= n <= |gop|
    ensures Overtaking(gop, e, m) <= Overtaking(gop, e, n)
  {
    if m < n {
      OvertakingGrows(gop, e, m, n - 1);
    }
  }

  lemma {:induction false} HighestIsLast(gop: seq<Entry>, i: nat, n: nat)
    requires i < n <= |gop|
    ensures i <= HighestNotAbove(gop, gop[i].poc, n) <= |gop|
  {
    if i < n - 1 {
      HighestIsLast(gop, i, n - 1);
    }
  }

  /** An entry that no higher layer overtakes counts all it has to hold back. */
  lemma OwnCountSuffices(gop: seq<Entry>, t: nat, i: nat)
    requires i < |gop| && gop[i].temporalId <= t && !Overtaken(gop, t, i)
    ensures HeldBack(gop, t, gop[i].poc, i) <= Reorder(gop, gop[i])
  {
    OvertakingCountsAll(gop, t, i, i);
    HighestIsLast(gop, i, |gop|);
    OvertakingGrows(gop, gop[i], i, HighestNotAbove(gop, gop[i].poc, |gop|));
  }

  /** So for such an entry the derived limit is enough. */
  lemma ReorderingSuffices(gop: seq<Entry>, t: nat, i: nat)
    requires ValidGop(gop) && i < |gop| && gop[i].temporalId <= t < MAX_TLAYER && !Overtaken(gop, t, i)
    ensures HeldBack(gop, t, gop[i].poc, i) <= FinalReorder(gop)[t]
  {
    hide Reorder, FinalReorder, Overtaken, Overtakers;
    OwnCountSuffices(gop, t, i);
    ReorderIsOvertakers(gop, gop[i]);
    LayersCoverLower(gop, i, t);
  }

  /** A raw maximum is 0 or some entry's demand. */
  lemma {:induction false} RawIsAttained(gop: seq<Entry>, n: nat, t: nat)
    requires n <= |gop|
    ensures RawReorder(gop, n, t) == 0 ||
            exists k :: 0 <= k < n && gop[k].temporalId == t && Reorder(gop, gop[k]) == RawReorder(gop, n, t)
  {
    hide Reorder;
    if n > 0 {
      RawIsAttained(gop, n - 1, t);
    }
  }

  /** A closed maximum is the raw maximum of its layer or of a lower one. */
  lemma {:induction false} ClosedIsAttained(raw: seq<int>, t: nat)
    requires t < |raw|
    ensures exists s :: 0 <= s <= t && raw[s] == ClosedReorder(raw, t)
  {
    if t > 0 {
      ClosedIsAttained(raw, t - 1);
    }
    assert raw[t] == ClosedReorder(raw, t) || (t > 0 && ClosedReorder(raw, t) == ClosedReorder(raw, t - 1));
  }

  lemma FinalIsAttained(gop: seq<Entry>, t: nat)
    requires t < MAX_TLAYER
    ensures FinalReorder(gop)[t] >= 0
    ensures FinalReorder(gop)[t] == 0 || Counted(gop, t, FinalReorder(gop)[t])
  {
    var raw := RawReorders(gop);
    ClosedIsAttained(raw, t);
    var s :| 0 <= s <= t && raw[s] == ClosedReorder(raw, t);
    hide Reorder, ClosedReorder, Overtakers;
    RawIsAttained(gop, |gop|, s);
    forall k | 0 <= k < |gop|
      ensures Reorder(gop, gop[k]) == |Overtakers(gop, gop[k])|
    {
      ReorderIsOvertakers(gop, gop[k]);
    }
  }

  /** For every layer the derived limit is enough exactly if wherever a picture overtakes one of a lower
      layer some entry's count makes up for it. */
  lemma LimitSufficesExactly(gop: seq<Entry>, t: nat)
    requires ValidGop(gop) && t < MAX_TLAYER
    ensures LimitSuffices(gop, t) <==> Compensated(gop, t)
  {
    hide Overtakers, FinalReorder, Overtaking;
    FinalIsAttained(gop, t);
    if LimitSuffices(gop, t) {
      forall i | 0 <= i < |gop| && gop[i].temporalId <= t && LeftOut(gop, t, i, i) > 0
        ensures Counted(gop, t, Overtaking(gop, gop[i], i) + LeftOut(gop, t, i, i))
      {
        HeldBackSplits(gop, t, i, i);
      }
    }
    if Compensated(gop, t) {
      forall i | 0 <= i < |gop| && gop[i].temporalId <= t
        ensures HeldBack(gop, t, gop[i].poc, i) <= FinalReorder(gop)[t]
      {
        CountCovers(gop, t, i);
      }
    }
  }

  lemma CountCovers(gop: seq<Entry>, t: nat, i: nat)
    requires ValidGop(gop) && t < MAX_TLAYER && Compensated(gop, t) && i < |gop| && gop[i].temporalId <= t
    ensures HeldBack(gop, t, gop[i].poc, i) <= FinalReorder(gop)[t]
  {
    hide Overtakers, FinalReorder, Overtaking, LeftOut;
    HeldBackSplits(gop, t, i, i);
    LeftOutMeans(gop, t, i, i);
    if LeftOut(gop, t, i, i) > 0 {
      var k :| 0 <= k < |gop| && gop[k].temporalId <= t && |Overtakers(gop, gop[k])| >= HeldBack(gop, t, gop[i].poc, i);
      LayersCoverLower(gop, k, t);
    } else {
      ReorderingSuffices(gop, t, i);
    }
  }

  /** GOP sizes the configuration accepts. */
  predicate AcceptedSize(n: nat) {
    n == 1 || (n > 0 && n % 2 == 0)
  }

  /** Coding order 4, 3, 1, 2 with POC 3 in layer 1, and references that are all available. */
  ghost predicate TwoLayered(gop: seq<Entry>) {
    gop == [Entry(4, 0, [4], []), Entry(3, 1, [3, -1], []), Entry(1, 0, [1, -3], []), Entry(2, 0, [1, -2], [])]
  }

  lemma TwoLayeredDemands(gop: seq<Entry>)
    requires TwoLayered(gop)
    ensures Reorder(gop, gop[0]) == 0 && Reorder(gop, gop[1]) == 1
    ensures Reorder(gop, gop[2]) == 1 && Reorder(gop, gop[3]) == 1
  {
    HighestOfTwoLayered(gop);
    OvertakingStep(gop, gop[0]);
    OvertakingStep(gop, gop[1]);
    OvertakingStep(gop, gop[2]);
    OvertakingStep(gop, gop[3]);
  }

  lemma HighestOfTwoLayered(gop: seq<Entry>)
    requires TwoLayered(gop)
    ensures HighestNotAbove(gop, 4, 4) == 3 && HighestNotAbove(gop, 3, 4) == 3
    ensures HighestNotAbove(gop, 1, 4) == 2 && HighestNotAbove(gop, 2, 4) == 3
  {
    assert HighestNotAbove(gop, 1, 3) == 2;
  }

  lemma OvertakingStep(gop: seq<Entry>, e: Entry)
    requires |gop| >= 3
    ensures Overtaking(gop, e, 2) ==
      (if gop[0].temporalId <= e.temporalId && gop[0].poc > e.poc then 1 else 0) +
      (if gop[1].temporalId <= e.temporalId && gop[1].poc > e.poc then 1 else 0)
    ensures Overtaking(gop, e, 3) ==
      Overtaking(gop, e, 2) + (if gop[2].temporalId <= e.temporalId && gop[2].poc > e.poc then 1 else 0)
  {
    assert Overtaking(gop, e, 1) == if gop[0].temporalId <= e.temporalId && gop[0].poc > e.poc then 1 else 0;
  }

  lemma TwoLayeredOvertakers(gop: seq<Entry>)
    requires TwoLayered(gop)
    ensures |Overtakers(gop, gop[0])| == 0 && |Overtakers(gop, gop[1])| == 1
    ensures |Overtakers(gop, gop[2])| == 1 && |Overtakers(gop, gop[3])| == 1
  {
    hide Reorder, Overtakers;
    TwoLayeredDemands(gop);
    ReorderIsOvertakers(gop, gop[0]);
    ReorderIsOvertakers(gop, gop[1]);
    ReorderIsOvertakers(gop, gop[2]);
    ReorderIsOvertakers(gop, gop[3]);
  }

  lemma TwoHeldBack(gop: seq<Entry>)
    requires TwoLayered(gop)
    ensures HeldBack(gop, MAX_TLAYER - 1, gop[2].poc, 2) == 2
  {
    assert HeldBack(gop, MAX_TLAYER - 1, 1, 1) == 1;
  }

  /** The condition fails: two earlier pictures follow POC 1 in output, but the derived limit is 1. */
  lemma OvertakenLowerLayer(gop: seq<Entry>)
    requires TwoLayered(gop)
    ensures AcceptedSize(|gop|) && ValidGop(gop)
    ensures HeldBack(gop, MAX_TLAYER - 1, gop[2].poc, 2) == 2 && FinalReorder(gop)[MAX_TLAYER - 1] == 1
    ensures !LimitSuffices(gop, MAX_TLAYER - 1)
  {
    hide Overtakers, FinalReorder, HeldBack;
    var t := MAX_TLAYER - 1;
    TwoHeldBack(gop);
    TwoLayeredOvertakers(gop);
    FinalIsAttained(gop, t);
    LayersCoverLower(gop, 1, t);
  }

  // ---- the code ----

  class DpbConfig {
    var numReorderPics: array<int>
    var maxDecPicBuffering: array<int>

    constructor ()
      ensures fresh(numReorderPics) && fresh(maxDecPicBuffering) && numReorderPics != maxDecPicBuffering
      ensures numReorderPics.Length == maxDecPicBuffering.Length == MAX_TLAYER
    {
      numReorderPics := new int[MAX_TLAYER];
      maxDecPicBuffering := new int[MAX_TLAYER];
    }

    predicate Valid()
      reads this
    {
      numReorderPics != maxDecPicBuffering && numReorderPics.Length == maxDecPicBuffering.Length == MAX_TLAYER
    }

    method Derive(gop: seq<Entry>)
      requires Valid() && ValidGop(gop)
      modifies numReorderPics, maxDecPicBuffering
      ensures numReorderPics[..] == FinalReorder(gop)
      ensures maxDecPicBuffering[..] == FinalBuffering(gop)
    {
      hide Reorder, RefCount, RawReorder, RawBuffering, ClosedReorder, ClosedBuffering;
      CollectRaw(gop);
      Close(RawReorders(gop), RawBufferings(gop));
    }

    /** The loop over the GOP: the largest demand of every layer. */
    method CollectRaw(gop: seq<Entry>)
      requires Valid() && ValidGop(gop)
      modifies numReorderPics, maxDecPicBuffering
      ensures forall t :: 0 <= t < MAX_TLAYER ==> numReorderPics[t] == RawReorder(gop, |gop|, t)
      ensures forall t :: 0 <= t < MAX_TLAYER ==> maxDecPicBuffering[t] == RawBuffering(gop, |gop|, t)
    {
      for i := 0 to MAX_TLAYER
        invariant forall t :: 0 <= t < i ==> numReorderPics[t] == 0 && maxDecPicBuffering[t] == 1
      {
        numReorderPics[i] := 0;
        maxDecPicBuffering[i] := 1;
      }
      for i := 0 to |gop|
        invariant forall t :: 0 <= t < MAX_TLAYER ==> numReorderPics[t] == RawReorder(gop, i, t)
        invariant forall t :: 0 <= t < MAX_TLAYER ==> maxDecPicBuffering[t] == RawBuffering(gop, i, t)
      {
        hide Reorder, RefCount;
        var tid := gop[i].temporalId;
        var numRefPic := CountRefs(gop[i]);
        if numRefPic + 1 > maxDecPicBuffering[tid] {
          maxDecPicBuffering[tid] := numRefPic + 1;
        }
        var numReorder := CountReorder(gop, gop[i]);
        if numReorder > numReorderPics[tid] {
          numReorderPics[tid] := numReorder;
        }
      }
    }

    method CountRefs(e: Entry) returns (numRefPic: nat)
      ensures numRefPic == RefCount(e) == |e.list0| + |NewPlaces(e.list0, e.list1)|
      ensures NoRepeats(e.list0) && NoRepeats(e.list1) ==> numRefPic == |References(e.list0, e.list1)|
    {
      numRefPic := |e.list0|;
      for tmp := 0 to |e.list1|
        invariant numRefPic == |e.list0| + Extra(e.list0, e.list1[..tmp])
      {
        var notSame := true;
        var jj := 0;
        while notSame && jj < |e.list0|
          invariant jj <= |e.list0|
          invariant notSame <==> e.list1[tmp] !in e.list0[..jj]
          invariant !notSame ==> e.list1[tmp] in e.list0
          decreases |e.list0| - jj
        {
          if e.list1[tmp] == e.list0[jj] {
            notSame := false;
          }
          jj := jj + 1;
        }
        if notSame {
          assert e.list0[..jj] == e.list0;
          numRefPic := numRefPic + 1;
        }
        assert e.list1[..tmp + 1][..tmp] == e.list1[..tmp];
      }
      assert e.list1[..|e.list1|] == e.list1;
      CountIsPlaces(e);
      if NoRepeats(e.list0) && NoRepeats(e.list1) {
        CountIsReferences(e);
      }
    }

    method CountReorder(gop: seq<Entry>, e: Entry) returns (numReorder: nat)
      ensures numReorder == Reorder(gop, e) == |Overtakers(gop, e)|
    {
      ReorderIsOvertakers(gop, e);
      hide Overtakers;
      var highest := 0;
      for j := 0 to |gop|
        invariant highest == HighestNotAbove(gop, e.poc, j) <= |gop|
      {
        if gop[j].poc <= e.poc {
          highest := j;
        }
      }
      numReorder := 0;
      for j := 0 to highest
        invariant numReorder == Overtaking(gop, e, j)
      {
        if gop[j].temporalId <= e.temporalId && gop[j].poc > e.poc {
          numReorder := numReorder + 1;
        }
      }
    }

    /** The closing loop, one layer into the next. */
    method Close(ghost rawReorder: seq<int>, ghost raw: seq<int>)
      requires Valid() && numReorderPics[..] == rawReorder && maxDecPicBuffering[..] == raw
      modifies numReorderPics, maxDecPicBuffering
      ensures forall t :: 0 <= t < MAX_TLAYER ==> numReorderPics[t] == ClosedReorder(rawReorder, t)
      ensures forall t :: 0 <= t < MAX_TLAYER ==> maxDecPicBuffering[t] == ClosedBuffering(rawReorder, raw, t)
    {
      ClosedNone(rawReorder, raw);
      hide ClosedReorder, ClosedBuffering, ClosedUpTo;
      for i := 0 to MAX_TLAYER - 1
        invariant ClosedUpTo(rawReorder, raw, i)
      {
        CloseNext(rawReorder, raw, i);
      }
      ClosedMost(rawReorder, raw);
      var top := MAX_TLAYER - 1;
      ClosedTop(rawReorder, raw);
      if numReorderPics[top] > maxDecPicBuffering[top] - 1 {
        maxDecPicBuffering[top] := numReorderPics[top] + 1;
      }
    }

    /** The layers below i are closed; layer i has taken over what the one below it needs. */
    ghost predicate ClosedUpTo(rawReorder: seq<int>, raw: seq<int>, i: nat)
      reads this, numReorderPics, maxDecPicBuffering
    {
      && Valid() && |rawReorder| == |raw| == MAX_TLAYER && i < MAX_TLAYER
      && (forall t :: 0 <= t <= i ==> numReorderPics[t] == ClosedReorder(rawReorder, t))
      && (forall t :: 0 <= t < i ==> maxDecPicBuffering[t] == ClosedBuffering(rawReorder, raw, t))
      && (maxDecPicBuffering[i] ==
            if i == 0 then raw[0] else Max(raw[i], ClosedBuffering(rawReorder, raw, i - 1)))
      && (forall t :: i < t < MAX_TLAYER ==> numReorderPics[t] == rawReorder[t] && maxDecPicBuffering[t] == raw[t])
    }

    lemma ClosedNone(rawReorder: seq<int>, raw: seq<int>)
      requires Valid() && numReorderPics[..] == rawReorder && maxDecPicBuffering[..] == raw
      ensures ClosedUpTo(rawReorder, raw, 0)
    {
    }

    lemma ClosedMost(rawReorder: seq<int>, raw: seq<int>)
      requires ClosedUpTo(rawReorder, raw, MAX_TLAYER - 1)
      ensures forall t :: 0 <= t < MAX_TLAYER ==> numReorderPics[t] == ClosedReorder(rawReorder, t)
      ensures forall t :: 0 <= t < MAX_TLAYER - 1 ==> maxDecPicBuffering[t] == ClosedBuffering(rawReorder, raw, t)
    {
      hide ClosedReorder, ClosedBuffering;
    }

    lemma ClosedTop(rawReorder: seq<int>, raw: seq<int>)
      requires ClosedUpTo(rawReorder, raw, MAX_TLAYER - 1)
      ensures var top := MAX_TLAYER - 1;
              Max(maxDecPicBuffering[top], numReorderPics[top] + 1) == ClosedBuffering(rawReorder, raw, top)
    {
      hide ClosedReorder;
    }

    method CloseNext(ghost rawReorder: seq<int>, ghost raw: seq<int>, i: nat)
      requires i + 1 < MAX_TLAYER && ClosedUpTo(rawReorder, raw, i)
      modifies numReorderPics, maxDecPicBuffering
      ensures ClosedUpTo(rawReorder, raw, i + 1)
    {
      hide ClosedReorder, ClosedBuffering;
      ClosedStep(rawReorder, raw, i);
      CloseLayer(i);
    }

    method CloseLayer(i: nat)
      requires Valid() && i + 1 < MAX_TLAYER
      modifies numReorderPics, maxDecPicBuffering
      ensures numReorderPics[i + 1] == Max(old(numReorderPics[i + 1]), old(numReorderPics[i]))
      ensures maxDecPicBuffering[i] == Max(old(maxDecPicBuffering[i]), old(numReorderPics[i]) + 1)
      ensures maxDecPicBuffering[i + 1] == Max(old(maxDecPicBuffering[i + 1]), maxDecPicBuffering[i])
      ensures forall t :: 0 <= t < MAX_TLAYER && t != i + 1 ==> numReorderPics[t] == old(numReorderPics[t])
      ensures forall t :: 0 <= t < MAX_TLAYER && t != i && t != i + 1 ==>
        maxDecPicBuffering[t] == old(maxDecPicBuffering[t])
    {
      if numReorderPics[i + 1] < numReorderPics[i] {
        numReorderPics[i + 1] := numReorderPics[i];
      }
      if numReorderPics[i] > maxDecPicBuffering[i] - 1 {
        maxDecPicBuffering[i] := numReorderPics[i] + 1;
      }
      if maxDecPicBuffering[i + 1] < maxDecPicBuffering[i] {
        maxDecPicBuffering[i + 1] := maxDecPicBuffering[i];
      }
    }
  }

  lemma ClosedStep(rawReorder: seq<int>, raw: seq<int>, i: nat)
    requires i + 1 < |raw| == |rawReorder|
    ensures ClosedReorder(rawReorder, i + 1) == Max(rawReorder[i + 1], ClosedReorder(rawReorder, i))
    ensures ClosedBuffering(rawReorder, raw, i) ==
      Max(if i == 0 then raw[0] else Max(raw[i], ClosedBuffering(rawReorder, raw, i - 1)),
          ClosedReorder(rawReorder, i) + 1)
  {
  }
}

/** Whether the references added to a frame's lists are available. The search for a replacement looks at as
    many places of the array as both lists have references, not at the places in use, so it can find a
    picture that an earlier frame left behind. */
module StaleReferences {
  import opened ReferenceLists
  import opened GopCheck

  // ---- one list ----

  /** A step back finds its picture only behind the places in use. */
  ghost predicate StaleHit(g: Structure, list: seq<Entry>, cur: nat, poc: int, refs: seq<int>, numRefs: nat, other: nat,
                           f: Search, o: nat)
    requires g.Valid(list) && cur < g.size && f.Found? && numRefs <= |refs|
  {
    var offPoc, looked := PassPoc(g, list, o), |f.deltas| + other;
    && offPoc >= 0 && list[o % g.size].temporalId <= list[cur].temporalId && looked <= |refs|
    && offPoc in refs[..looked] && offPoc !in refs[..numRefs] && poc - offPoc !in f.deltas
  }

  /** Some step of the loop back from `pass` does. */
  ghost predicate MeetsStale(g: Structure, list: seq<Entry>, cur: nat, poc: int, refs: seq<int>, numRefs: nat,
                             other: nat, f: Search, pass: nat)
    requires g.Valid(list) && cur < g.size && f.Found? && numRefs <= |refs|
    decreases pass
  {
    pass > 0 &&
    (|| StaleHit(g, list, cur, poc, refs, numRefs, other, f, pass - 1)
     || (var next := Consider(g, list, cur, poc, refs, other, f, pass - 1);
         && next.Found? && |next.deltas| < list[cur].active
         && MeetsStale(g, list, cur, poc, refs, numRefs, other, next, pass - 1)))
  }

  /** The array with nothing behind the places in use. */
  function Blanked(refs: seq<int>, numRefs: nat): (blank: seq<int>)
    requires numRefs <= |refs|
    ensures |blank| == |refs|
  {
    refs[..numRefs] + seq(|refs| - numRefs, _ => -1)
  }

  /** What was added to a list is available. */
  ghost predicate AddedAvailable(before: seq<int>, after: seq<int>, poc: int, available: seq<int>) {
    forall d :: d in after ==> d in before || poc - d in available
  }

  lemma BlankedLookup(refs: seq<int>, numRefs: nat, looked: nat, x: int)
    requires numRefs <= |refs| && looked <= |refs| && x >= 0
    ensures x in Blanked(refs, numRefs)[..looked] ==> x in refs[..looked] && x in refs[..numRefs]
    ensures x in refs[..looked] && x in refs[..numRefs] ==> x in Blanked(refs, numRefs)[..looked]
  {
    var blank := Blanked(refs, numRefs);
    if x in blank[..looked] {
      var k :| 0 <= k < looked && blank[k] == x;
      assert refs[..looked][k] == x && refs[..numRefs][k] == x;
    }
    if x in refs[..looked] && x in refs[..numRefs] {
      var k :| 0 <= k < looked && refs[k] == x;
      var j :| 0 <= j < numRefs && refs[j] == x;
      assert blank[..looked][if k < numRefs then k else j] == x;
    }
  }

  /** Without a stale hit a step is the same over both arrays. */
  lemma PlainStep(g: Structure, list: seq<Entry>, cur: nat, poc: int, refs: seq<int>, numRefs: nat, other: nat,
                  f: Search, o: nat)
    requires g.Valid(list) && cur < g.size && f.Found? && numRefs <= |refs|
    requires !StaleHit(g, list, cur, poc, refs, numRefs, other, f, o)
    ensures Consider(g, list, cur, poc, refs, other, f, o)
         == Consider(g, list, cur, poc, Blanked(refs, numRefs), other, f, o)
  {
    var offPoc, looked := PassPoc(g, list, o), |f.deltas| + other;
    hide Blanked, PassPoc, Inserted;
    if offPoc >= 0 && looked <= |refs| {
      BlankedLookup(refs, numRefs, looked, offPoc);
    }
  }

  /** A step adds at most its own picture, found in the places looked at. */
  lemma StepAdds(g: Structure, list: seq<Entry>, cur: nat, poc: int, refs: seq<int>, other: nat, f: Search, o: nat,
                 d: int)
    requires g.Valid(list) && cur < g.size && f.Found? && Consider(g, list, cur, poc, refs, other, f, o).Found?
    requires d in Consider(g, list, cur, poc, refs, other, f, o).deltas && d !in f.deltas
    ensures poc - d >= 0 && |f.deltas| + other <= |refs| && poc - d in refs[..|f.deltas| + other]
  {
    hide PassPoc, Inserted;
    InsertedMembers(f.deltas, poc - PassPoc(g, list, o));
  }

  /** A step over the blanked array adds an available picture, if any. */
  lemma BlankedStep(g: Structure, list: seq<Entry>, cur: nat, poc: int, refs: seq<int>, numRefs: nat, other: nat,
                    f: Search, o: nat)
    requires g.Valid(list) && cur < g.size && f.Found? && numRefs <= |refs|
    requires Consider(g, list, cur, poc, Blanked(refs, numRefs), other, f, o).Found?
    ensures AddedAvailable(f.deltas, Consider(g, list, cur, poc, Blanked(refs, numRefs), other, f, o).deltas, poc,
                           refs[..numRefs])
  {
    var blank := Blanked(refs, numRefs);
    hide Blanked, Consider;
    forall d | d in Consider(g, list, cur, poc, blank, other, f, o).deltas && d !in f.deltas
      ensures poc - d in refs[..numRefs]
    {
      StepAdds(g, list, cur, poc, blank, other, f, o, d);
      BlankedLookup(refs, numRefs, |f.deltas| + other, poc - d);
    }
  }

  /** A stale hit adds a picture that is not available. */
  lemma StaleStep(g: Structure, list: seq<Entry>, cur: nat, poc: int, refs: seq<int>, numRefs: nat, other: nat,
                  f: Search, o: nat)
    requires g.Valid(list) && cur < g.size && f.Found? && numRefs <= |refs|
    requires StaleHit(g, list, cur, poc, refs, numRefs, other, f, o)
    requires Consider(g, list, cur, poc, refs, other, f, o).Found?
    ensures var d, next := poc - PassPoc(g, list, o), Consider(g, list, cur, poc, refs, other, f, o).deltas;
            d in next && d !in f.deltas && poc - d !in refs[..numRefs]
  {
    hide PassPoc, Inserted;
    InsertedMembers(f.deltas, poc - PassPoc(g, list, o));
  }

  /** The loop only adds. */
  lemma FillKeeps(g: Structure, list: seq<Entry>, cur: nat, poc: int, refs: seq<int>, other: nat, f: Search, pass: nat)
    requires g.Valid(list) && cur < g.size && f.Found? && Fill(g, list, cur, poc, refs, other, f, pass).Found?
    ensures forall d :: d in f.deltas ==> d in Fill(g, list, cur, poc, refs, other, f, pass).deltas
  {
    hide Fill, Replacement, Distinct, PositivesAscend;
    FillCompletes(g, list, cur, poc, refs, other, f, pass, pass);
  }

  lemma FillUnfolds(g: Structure, list: seq<Entry>, cur: nat, poc: int, refs: seq<int>, other: nat, f: Search,
                    pass: nat)
    requires g.Valid(list) && cur < g.size && f.Found? && pass > 0
    ensures var next := Consider(g, list, cur, poc, refs, other, f, pass - 1);
            Fill(g, list, cur, poc, refs, other, f, pass) ==
            (if next.OutOfBounds? || |next.deltas| >= list[cur].active then next
             else Fill(g, list, cur, poc, refs, other, next, pass - 1))
  {
    hide Consider;
  }

  lemma FillNothing(g: Structure, list: seq<Entry>, cur: nat, poc: int, refs: seq<int>, other: nat, f: Search)
    requires g.Valid(list) && cur < g.size
    ensures Fill(g, list, cur, poc, refs, other, f, 0) == f
  {
  }

  /** Over the blanked array everything added is available. */
  lemma {:induction false} BlankedFill(g: Structure, list: seq<Entry>, cur: nat, poc: int, refs: seq<int>, numRefs: nat,
                                       other: nat, f: Search, pass: nat)
    requires g.Valid(list) && cur < g.size && f.Found? && numRefs <= |refs|
    requires Fill(g, list, cur, poc, Blanked(refs, numRefs), other, f, pass).Found?
    ensures AddedAvailable(f.deltas, Fill(g, list, cur, poc, Blanked(refs, numRefs), other, f, pass).deltas, poc,
                           refs[..numRefs])
    decreases pass
  {
    var blank := Blanked(refs, numRefs);
    hide Fill, Consider, Blanked;
    if pass == 0 {
      FillNothing(g, list, cur, poc, blank, other, f);
    } else {
      FillUnfolds(g, list, cur, poc, blank, other, f, pass);
      BlankedStep(g, list, cur, poc, refs, numRefs, other, f, pass - 1);
      var next := Consider(g, list, cur, poc, blank, other, f, pass - 1);
      if |next.deltas| < list[cur].active {
        BlankedFill(g, list, cur, poc, refs, numRefs, other, next, pass - 1);
      }
    }
  }

  /** If no step hits a stale place, both arrays give the same list. */
  lemma {:induction false} PlainFill(g: Structure, list: seq<Entry>, cur: nat, poc: int, refs: seq<int>, numRefs: nat,
                                     other: nat, f: Search, pass: nat)
    requires g.Valid(list) && cur < g.size && f.Found? && numRefs <= |refs|
    requires !MeetsStale(g, list, cur, poc, refs, numRefs, other, f, pass)
    ensures Fill(g, list, cur, poc, Blanked(refs, numRefs), other, f, pass)
         == Fill(g, list, cur, poc, refs, other, f, pass)
    decreases pass
  {
    var blank := Blanked(refs, numRefs);
    hide Fill, Consider, Blanked, StaleHit;
    if pass == 0 {
      FillNothing(g, list, cur, poc, blank, other, f);
      FillNothing(g, list, cur, poc, refs, other, f);
    } else {
      FillUnfolds(g, list, cur, poc, blank, other, f, pass);
      FillUnfolds(g, list, cur, poc, refs, other, f, pass);
      PlainStep(g, list, cur, poc, refs, numRefs, other, f, pass - 1);
      var next := Consider(g, list, cur, poc, refs, other, f, pass - 1);
      if next.Found? && |next.deltas| < list[cur].active {
        PlainFill(g, list, cur, poc, refs, numRefs, other, next, pass - 1);
      }
    }
  }

  /** If one does, something is added that is not available. */
  lemma {:induction false} StaleFill(g: Structure, list: seq<Entry>, cur: nat, poc: int, refs: seq<int>, numRefs: nat,
                                     other: nat, f: Search, pass: nat)
    requires g.Valid(list) && cur < g.size && f.Found? && numRefs <= |refs|
    requires MeetsStale(g, list, cur, poc, refs, numRefs, other, f, pass)
    requires Fill(g, list, cur, poc, refs, other, f, pass).Found?
    ensures exists d :: d in Fill(g, list, cur, poc, refs, other, f, pass).deltas && d !in f.deltas &&
                        poc - d !in refs[..numRefs]
    decreases pass
  {
    hide Fill, Consider, StaleHit;
    FillUnfolds(g, list, cur, poc, refs, other, f, pass);
    var next := Consider(g, list, cur, poc, refs, other, f, pass - 1);
    if StaleHit(g, list, cur, poc, refs, numRefs, other, f, pass - 1) {
      StaleStep(g, list, cur, poc, refs, numRefs, other, f, pass - 1);
      if |next.deltas| < list[cur].active {
        FillKeeps(g, list, cur, poc, refs, other, next, pass - 1);
      }
    } else {
      StaleFill(g, list, cur, poc, refs, numRefs, other, next, pass - 1);
      var d :| d in Fill(g, list, cur, poc, refs, other, next, pass - 1).deltas && d !in next.deltas &&
               poc - d !in refs[..numRefs];
      StepKeeps(g, list, cur, poc, refs, other, f, pass - 1);
    }
  }

  lemma StepKeeps(g: Structure, list: seq<Entry>, cur: nat, poc: int, refs: seq<int>, other: nat, f: Search, o: nat)
    requires g.Valid(list) && cur < g.size && f.Found? && Consider(g, list, cur, poc, refs, other, f, o).Found?
    ensures forall d :: d in f.deltas ==> d in Consider(g, list, cur, poc, refs, other, f, o).deltas
  {
    hide Consider, Replacement, Distinct, PositivesAscend;
    ConsiderCompletes(g, list, cur, poc, refs, other, f, o + 1, o);
  }

  /** Every reference added to a list is available exactly if no step of the loop finds its picture only behind
      the places in use, which is so exactly if those places make no difference. */
  lemma FillAddsAvailable(g: Structure, list: seq<Entry>, cur: nat, poc: int, refs: seq<int>, numRefs: nat, other: nat,
                          f: Search, pass: nat)
    requires g.Valid(list) && cur < g.size && f.Found? && numRefs <= |refs|
    requires Fill(g, list, cur, poc, refs, other, f, pass).Found?
    ensures var r := Fill(g, list, cur, poc, refs, other, f, pass);
            && (AddedAvailable(f.deltas, r.deltas, poc, refs[..numRefs]) <==>
                !MeetsStale(g, list, cur, poc, refs, numRefs, other, f, pass))
            && (AddedAvailable(f.deltas, r.deltas, poc, refs[..numRefs]) <==>
                Fill(g, list, cur, poc, Blanked(refs, numRefs), other, f, pass) == r)
  {
    hide Fill, Blanked, MeetsStale;
    if MeetsStale(g, list, cur, poc, refs, numRefs, other, f, pass) {
      StaleFill(g, list, cur, poc, refs, numRefs, other, f, pass);
    } else {
      PlainFill(g, list, cur, poc, refs, numRefs, other, f, pass);
    }
    var blank := Blanked(refs, numRefs);
    if Fill(g, list, cur, poc, blank, other, f, pass) == Fill(g, list, cur, poc, refs, other, f, pass) {
      BlankedFill(g, list, cur, poc, refs, numRefs, other, f, pass);
    }
  }

  // ---- both lists of a frame ----

  /** The lists of a created entry contain configured references and available ones. */
  ghost predicate BothAvailable(g: Structure, list0: seq<Entry>, list1: seq<Entry>, pass: nat, available: seq<int>,
                                c: Lists)
    requires g.Valid(list0) && g.Valid(list1) && c.Lists?
  {
    var cur, poc := pass % g.size, PassPoc(g, list0, pass);
    && AddedAvailable(Kept(list0[cur].deltas, poc), c.deltas0, poc, available)
    && AddedAvailable(Kept(list1[cur].deltas, poc), c.deltas1, poc, available)
  }

  /** The references added to a frame's lists are all available exactly if the places behind those in use make
      no difference to the lists. */
  lemma CompletedAddsAvailable(g: Structure, list0: seq<Entry>, list1: seq<Entry>, pass: nat, refs: seq<int>,
                               numRefs: nat)
    requires g.Valid(list0) && g.Valid(list1) && numRefs <= |refs|
    requires Completed(g, list0, list1, pass, refs).Lists?
    ensures BothAvailable(g, list0, list1, pass, refs[..numRefs], Completed(g, list0, list1, pass, refs)) <==>
            Completed(g, list0, list1, pass, Blanked(refs, numRefs)) == Completed(g, list0, list1, pass, refs)
  {
    var cur, poc, blank := pass % g.size, PassPoc(g, list0, pass), Blanked(refs, numRefs);
    var f0, f1 := Found(Kept(list0[cur].deltas, poc), {}), Found(Kept(list1[cur].deltas, poc), {});
    hide Fill, Kept, Blanked, PassPoc, AddedAvailable;
    var r0 := Fill(g, list0, cur, poc, refs, |f1.deltas|, f0, pass);
    var r1 := Fill(g, list1, cur, poc, refs, |r0.deltas|, f1, pass);
    FillAddsAvailable(g, list0, cur, poc, refs, numRefs, |f1.deltas|, f0, pass);
    FillAddsAvailable(g, list1, cur, poc, refs, numRefs, |r0.deltas|, f1, pass);
    if Completed(g, list0, list1, pass, blank) == Completed(g, list0, list1, pass, refs) {
      BlankedFill(g, list0, cur, poc, refs, numRefs, |f1.deltas|, f0, pass);
      BlankedFill(g, list1, cur, poc, refs, numRefs, |r0.deltas|, f1, pass);
    }
  }

  /** The same of a frame of a run whose lists were completed. */
  lemma FrameAddsAvailable(g: Structure, list0: seq<Entry>, list1: seq<Entry>, isField: bool, frames: seq<Frame>,
                           refs: seq<int>, numRefs: nat, p: nat)
    requires g.Valid(list0) && g.Valid(list1) && Run(g, list0, list1, isField, frames, refs, numRefs)
    requires p < |frames| && Needs(g, list0, frames[p], p)
    ensures var f := frames[p];
            BothAvailable(g, list0, list1, p, f.refs[..f.numRefs], Lists(f.deltas0, f.deltas1)) <==>
            Completed(g, list0, list1, p, Blanked(f.refs, f.numRefs)) == Lists(f.deltas0, f.deltas1)
  {
    hide Completed, Blanked, BothAvailable, Run, PassPoc, AllPresent;
    RunFrame(g, list0, list1, isField, frames, refs, numRefs, p);
    CompletedAddsAvailable(g, list0, list1, p, frames[p].refs, frames[p].numRefs);
  }

  // ---- an accepted structure with a stale reference ----

  /** Entries seen in a run without a missing reference. */
  ghost predicate Sound(g: Structure, list0: seq<Entry>, list1: seq<Entry>, frames: seq<Frame>, refs: seq<int>,
                        numRefs: nat)
    requires g.Valid(list0) && g.Valid(list1)
  {
    && Run(g, list0, list1, false, frames, refs, numRefs) && numRefs <= |refs| == PLACES
    && forall p :: 0 <= p < |frames| ==> !Missing(g, list0, frames, p)
  }

  /** One more frame, with its configured lists or completed ones. */
  lemma SoundStep(g: Structure, list0: seq<Entry>, list1: seq<Entry>, frames: seq<Frame>, f: Frame, next: seq<int>)
    requires g.Valid(list0) && g.Valid(list1) && Sound(g, list0, list1, frames, f.refs, f.numRefs)
    requires FrameOk(g, list0, list1, |frames|, f) && |next| <= PLACES
    requires !SomeMissing(list0[|frames| % g.size].deltas, PassPoc(g, list0, |frames|), f.refs[..f.numRefs])
    requires NextReferences(f.deltas0, f.deltas1, PassPoc(g, list0, |frames|)) == next
    ensures Sound(g, list0, list1, frames + [f], next + f.refs[|next|..], |next|)
  {
    hide PassPoc, FrameOk, NextReferences, SomeMissing, Run, Missing;
    RunStep(g, list0, list1, false, frames, f, next + f.refs[|next|..], |next|);
    NoneMissing(g, list0, frames, f);
  }

  /** POC 1 refers to POC -4, which does not exist at first, and POC 2 to nothing in list 0. */
  ghost predicate Leftover(list0: seq<Entry>, list1: seq<Entry>) {
    && 2 <= |list0| && 2 <= |list1|
    && list0[0].poc == list1[0].poc == 1 && list0[0].deltas == [5] && list1[0].deltas == [1]
    && list0[1].poc == list1[1].poc == 2 && list0[1].deltas == [] && list1[1].deltas == [4]
    && list0[0].active == 2 && list1[0].active == 1 && list0[1].active == 0 && list1[1].active == 1
    && list0[0].temporalId == list0[1].temporalId && list1[0].temporalId == list1[1].temporalId
  }

  lemma LeftoverFirst(list0: seq<Entry>, list1: seq<Entry>, refs: seq<int>)
    requires Leftover(list0, list1)
    ensures Completed(Structure(2, 2), list0, list1, 0, refs) == Lists([], [1])
  {
    var g := Structure(2, 2);
    assert PassPoc(g, list0, 0) == 1;
    assert [5][1..] == [] && [1][1..] == [];
    assert Kept([5], 1) == [] && Kept([1], 1) == [1];
    hide PassPoc, Kept;
    FillNothing(g, list0, 0, 1, refs, 1, Found([], {}));
    FillNothing(g, list1, 0, 1, refs, 0, Found([1], {}));
  }

  lemma InsertedFirst()
    ensures Inserted([], 1) == [1] && Inserted([1], 2) == [1, 2]
  {
    assert InsertPoint([1], 2) == 1 by {
      assert [1][1..] == [];
    }
  }

  /** A picture that is found and not in the list yet joins it. */
  lemma Joins(g: Structure, list: seq<Entry>, refs: seq<int>, f: Search, o: nat, p: int)
    requires g.Valid(list) && PassPoc(g, list, o) == p >= 0 && list[o % g.size].temporalId == list[0].temporalId
    requires f.Found? && |f.deltas| + 1 <= |refs| && |f.deltas| < 2 && p in refs[..|f.deltas| + 1] && 3 - p !in f.deltas
    ensures var next := Consider(g, list, 0, 3, refs, 1, f, o); next.Found? && next.deltas == Inserted(f.deltas, 3 - p)
  {
    hide PassPoc, Inserted;
  }

  /** A step back to POC 2, the only picture in use. */
  lemma FindsUsed(g: Structure, list: seq<Entry>, refs: seq<int>)
    requires g.Valid(list) && PassPoc(g, list, 1) == 2 && list[1 % g.size].temporalId == list[0].temporalId
    requires |refs| >= 2 && refs[..1] == [2]
    ensures var next := Consider(g, list, 0, 3, refs, 1, Found([], {}), 1); next.Found? && next.deltas == [1]
  {
    InsertedFirst();
    hide *;
    Joins(g, list, refs, Found([], {}), 1, 2);
  }

  /** A step further back to POC 1, which is behind the place in use. */
  lemma FindsLeftover(g: Structure, list: seq<Entry>, refs: seq<int>, f: Search)
    requires g.Valid(list) && PassPoc(g, list, 0) == 1 && list[0 % g.size].temporalId == list[0].temporalId
    requires |refs| >= 2 && refs[..2] == [2, 1] && f.Found? && f.deltas == [1]
    ensures var next := Consider(g, list, 0, 3, refs, 1, f, 0); next.Found? && next.deltas == [1, 2]
  {
    InsertedFirst();
    hide *;
    assert 1 in refs[..2];
    Joins(g, list, refs, f, 0, 1);
  }

  lemma LeftoverList0(list0: seq<Entry>, list1: seq<Entry>, refs: seq<int>)
    requires Leftover(list0, list1) && |refs| >= 2 && refs[..2] == [2, 1]
    ensures var r := Fill(Structure(2, 2), list0, 0, 3, refs, 1, Found([], {}), 2); r.Found? && r.deltas == [1, 2]
  {
    var g := Structure(2, 2);
    assert PassPoc(g, list0, 0) == 1 && PassPoc(g, list0, 1) == 2;
    assert refs[..1] == refs[..2][..1];
    hide PassPoc, Fill, Consider;
    FillUnfolds(g, list0, 0, 3, refs, 1, Found([], {}), 2);
    FindsUsed(g, list0, refs);
    var next := Consider(g, list0, 0, 3, refs, 1, Found([], {}), 1);
    FillUnfolds(g, list0, 0, 3, refs, 1, next, 1);
    FindsLeftover(g, list0, refs, next);
  }

  lemma LeftoverList1(list0: seq<Entry>, list1: seq<Entry>, refs: seq<int>)
    requires Leftover(list0, list1) && |refs| >= 3
    ensures Fill(Structure(2, 2), list1, 0, 3, refs, 2, Found([1], {}), 2) == Found([1], {})
  {
    var g := Structure(2, 2);
    assert PassPoc(g, list1, 1) == 2;
    hide PassPoc, Fill, Inserted;
    FillUnfolds(g, list1, 0, 3, refs, 2, Found([1], {}), 2);
    assert Consider(g, list1, 0, 3, refs, 2, Found([1], {}), 1) == Found([1], {});
  }

  /** At POC 3 only POC 2 is available, but the array still holds POC 1. */
  lemma LeftoverThird(list0: seq<Entry>, list1: seq<Entry>, refs: seq<int>)
    requires Leftover(list0, list1) && |refs| >= 3 && refs[..2] == [2, 1]
    ensures Completed(Structure(2, 2), list0, list1, 2, refs) == Lists([1, 2], [1])
  {
    var g := Structure(2, 2);
    assert PassPoc(g, list0, 2) == 3;
    assert Kept([5], 3) == [] && Kept([1], 3) == [1] by {
      assert [5][1..] == [] && [1][1..] == [];
    }
    hide PassPoc, Fill, Kept;
    LeftoverList0(list0, list1, refs);
    LeftoverList1(list0, list1, refs);
  }

  lemma LeftoverNext()
    ensures NextReferences([], [1], 1) == [0, 1] && NextReferences([], [4], 2) == [2]
    ensures NextReferences([1, 2], [1], 3) == [2, 1, 3] && NextReferences([], [4], 4) == [0, 4]
    ensures NextReferences([5], [1], 5) == [0, 4, 5]
  {
    hide *;
    OneInList1(1, 1);
    OneInList1(4, 2);
    OneInList1(4, 4);
    ThirdReferences();
    FifthReferences();
  }

  /** Nothing in list 0, one reference in list 1. */
  lemma OneInList1(d: int, poc: int)
    ensures NextReferences([], [d], poc) == if poc - d >= 0 then [poc - d, poc] else [poc]
  {
    assert [d][1..] == [] && Kept([], poc) == [] && Pictures([], poc) == [];
    assert poc - d >= 0 ==> AddNew([], [d], poc) == AddNew([poc - d], [], poc);
  }

  lemma ThirdReferences()
    ensures NextReferences([1, 2], [1], 3) == [2, 1, 3]
  {
  }

  lemma FifthReferences()
    ensures NextReferences([5], [1], 5) == [0, 4, 5]
  {
  }

  lemma LeftoverPocs(list0: seq<Entry>, list1: seq<Entry>)
    requires Leftover(list0, list1)
    ensures var g := Structure(2, 2);
            && g.Valid(list0) && g.Valid(list1) && PassPoc(g, list0, 0) == 1 && PassPoc(g, list0, 1) == 2
            && PassPoc(g, list0, 2) == 3 && PassPoc(g, list0, 3) == 4 && PassPoc(g, list0, 4) == 5
  {
  }

  /** A frame of POC 1 or 3, with completed lists. */
  lemma CompletedFrame(list0: seq<Entry>, list1: seq<Entry>, n: nat, f: Frame)
    requires Leftover(list0, list1) && (n == 0 || n == 2) && f.numRefs <= |f.refs| == PLACES
    requires Completed(Structure(2, 2), list0, list1, n, f.refs) == Lists(f.deltas0, f.deltas1)
    ensures FrameOk(Structure(2, 2), list0, list1, n, f)
    ensures !SomeMissing(list0[n % 2].deltas, PassPoc(Structure(2, 2), list0, n), f.refs[..f.numRefs])
  {
    LeftoverPocs(list0, list1);
    assert 5 in list0[0].deltas;
    hide PassPoc, Completed;
  }

  /** A frame whose references are all present. */
  lemma PresentFrame(list0: seq<Entry>, list1: seq<Entry>, n: nat, f: Frame)
    requires Leftover(list0, list1) && (n == 1 || n == 3 || n == 4) && f.numRefs <= |f.refs| == PLACES
    requires if n == 4 then f.deltas0 == [5] && f.deltas1 == [1] && 0 in f.refs[..f.numRefs]
             else f.deltas0 == [] && f.deltas1 == [4]
    ensures FrameOk(Structure(2, 2), list0, list1, n, f)
    ensures Present(Structure(2, 2), list0, n, f.refs, f.numRefs)
    ensures !SomeMissing(list0[n % 2].deltas, PassPoc(Structure(2, 2), list0, n), f.refs[..f.numRefs])
  {
    LeftoverPocs(list0, list1);
    hide PassPoc, Completed;
  }

  lemma SoundStart(list0: seq<Entry>, list1: seq<Entry>)
    requires Leftover(list0, list1)
    ensures Sound(Structure(2, 2), list0, list1, [], InitialRefs(false), 1)
  {
  }

  lemma LeftoverOne(list0: seq<Entry>, list1: seq<Entry>) returns (frames: seq<Frame>, refs: seq<int>)
    requires Leftover(list0, list1)
    ensures |frames| == 1 && Sound(Structure(2, 2), list0, list1, frames, refs, 2) && refs[..2] == [0, 1]
  {
    var start := InitialRefs(false);
    LeftoverPocs(list0, list1);
    LeftoverNext();
    hide *;
    SoundStart(list0, list1);
    LeftoverFirst(list0, list1, start);
    var f := Frame(start, 1, [], [1]);
    CompletedFrame(list0, list1, 0, f);
    SoundStep(Structure(2, 2), list0, list1, [], f, [0, 1]);
    frames, refs := [] + [f], [0, 1] + start[2..];
    SoundSize(list0, list1, frames, refs, 2);
  }

  lemma SoundSize(list0: seq<Entry>, list1: seq<Entry>, frames: seq<Frame>, refs: seq<int>, numRefs: nat)
    requires Leftover(list0, list1) && Sound(Structure(2, 2), list0, list1, frames, refs, numRefs)
    ensures numRefs <= |refs| == PLACES && PLACES == 30
  {
    hide Run, Missing;
  }

  lemma LeftoverTwo(list0: seq<Entry>, list1: seq<Entry>) returns (frames: seq<Frame>, refs: seq<int>)
    requires Leftover(list0, list1)
    ensures |frames| == 2 && Sound(Structure(2, 2), list0, list1, frames, refs, 1)
    ensures |refs| >= 3 && refs[..2] == [2, 1]
  {
    hide *;
    var before, slots := LeftoverOne(list0, list1);
    LeftoverPocs(list0, list1);
    LeftoverNext();
    SoundSize(list0, list1, before, slots, 2);
    var f := Frame(slots, 2, [], [4]);
    PresentFrame(list0, list1, 1, f);
    SoundStep(Structure(2, 2), list0, list1, before, f, [2]);
    frames, refs := before + [f], [2] + slots[1..];
    assert slots[1] == slots[..2][1];
  }

  /** The first three frames: POC 3 gets a reference to POC 1, which is not available. */
  lemma LeftoverThree(list0: seq<Entry>, list1: seq<Entry>) returns (frames: seq<Frame>, refs: seq<int>)
    requires Leftover(list0, list1)
    ensures |frames| == 3 && Sound(Structure(2, 2), list0, list1, frames, refs, 3)
    ensures Unavailable(frames)
  {
    var before, slots := LeftoverTwo(list0, list1);
    LeftoverPocs(list0, list1);
    LeftoverNext();
    assert slots[..1] == slots[..2][..1];
    var f := Frame(slots, 1, [1, 2], [1]);
    frames, refs := before + [f], [2, 1, 3] + slots[3..];
    assert Unavailable(frames);
    hide *;
    SoundSize(list0, list1, before, slots, 1);
    LeftoverThird(list0, list1, slots);
    CompletedFrame(list0, list1, 2, f);
    SoundStep(Structure(2, 2), list0, list1, before, f, [2, 1, 3]);
  }

  /** The third frame, POC 3, refers to POC 1 although only POC 2 is available. */
  ghost predicate Unavailable(frames: seq<Frame>) {
    && |frames| >= 3 && frames[2].numRefs == 1 <= |frames[2].refs|
    && frames[2].refs[..1] == [2] && frames[2].deltas0 == [1, 2]
  }

  lemma LeftoverFour(list0: seq<Entry>, list1: seq<Entry>) returns (frames: seq<Frame>, refs: seq<int>)
    requires Leftover(list0, list1)
    ensures |frames| == 4 && Sound(Structure(2, 2), list0, list1, frames, refs, 2) && refs[..2] == [0, 4]
    ensures Unavailable(frames) && SeenAt(Structure(2, 2), list0, frames, 1, 3)
  {
    var before, slots := LeftoverThree(list0, list1);
    LeftoverPocs(list0, list1);
    LeftoverNext();
    hide *;
    SoundSize(list0, list1, before, slots, 3);
    var f := Frame(slots, 3, [], [4]);
    PresentFrame(list0, list1, 3, f);
    SoundStep(Structure(2, 2), list0, list1, before, f, [0, 4]);
    frames, refs := before + [f], [0, 4] + slots[2..];
    PresentIsSeen(list0, before, f);
    StillUnavailable(before, f);
  }

  lemma PresentIsSeen(list0: seq<Entry>, before: seq<Frame>, f: Frame)
    requires 2 <= |list0| && f.numRefs <= |f.refs|
    requires Present(Structure(2, 2), list0, |before|, f.refs, f.numRefs)
    ensures SeenAt(Structure(2, 2), list0, before + [f], |before| % 2, |before|)
  {
    hide Present;
  }

  lemma StillUnavailable(before: seq<Frame>, f: Frame)
    requires Unavailable(before)
    ensures Unavailable(before + [f])
  {
  }

  /** The structure is accepted two frames later. */
  lemma LeftoverAccepted(list0: seq<Entry>, list1: seq<Entry>) returns (frames: seq<Frame>, refs: seq<int>)
    requires Leftover(list0, list1)
    ensures var g := Structure(2, 2);
            && Run(g, list0, list1, false, frames, refs, 3)
            && Explained(g, list0, list1, frames, 2, Verified, refs, 3)
            && Unavailable(frames) && PassPoc(g, list0, 2) == 3
  {
    var before, slots := LeftoverFour(list0, list1);
    LeftoverPocs(list0, list1);
    LeftoverNext();
    assert 0 in slots[..2];
    hide *;
    SoundSize(list0, list1, before, slots, 2);
    var f := Frame(slots, 2, [5], [1]);
    PresentFrame(list0, list1, 4, f);
    SoundStep(Structure(2, 2), list0, list1, before, f, [0, 4, 5]);
    frames, refs := before + [f], [0, 4, 5] + slots[3..];
    PresentIsSeen(list0, before, f);
    StillUnavailable(before, f);
    SeenLater(list0, before, f);
    SoundVerified(list0, list1, frames, refs);
  }

  lemma SeenLater(list0: seq<Entry>, before: seq<Frame>, f: Frame)
    requires 2 <= |list0| && |before| == 4 && SeenAt(Structure(2, 2), list0, before, 1, 3)
    ensures SeenAt(Structure(2, 2), list0, before + [f], 1, 3)
  {
    hide Present;
  }

  lemma SoundVerified(list0: seq<Entry>, list1: seq<Entry>, frames: seq<Frame>, refs: seq<int>)
    requires var g := Structure(2, 2);
             && g.Valid(list0) && g.Valid(list1) && Sound(g, list0, list1, frames, refs, 3) && |frames| == 5
             && SeenAt(g, list0, frames, 1, 3) && SeenAt(g, list0, frames, 0, 4)
    ensures Run(Structure(2, 2), list0, list1, false, frames, refs, 3)
    ensures Explained(Structure(2, 2), list0, list1, frames, 2, Verified, refs, 3)
  {
    hide Run, Missing, SeenAt;
  }
}

/** What the GOP check does not see: list 1 is never looked up among the available pictures, and a
    verified structure may still lose its references in a later GOP. */
module GopAvailability {
  import opened ReferenceLists
  import opened GopCheck
  import DpbSize

  // ---- available pictures that were never coded ----

  /** A picture that exists before pass n: one of the first pictures, or one coded in an earlier pass. */
  ghost predicate Coded(g: Structure, list0: seq<Entry>, isField: bool, n: nat, x: int)
    requires g.Valid(list0)
  {
    x == 0 || (isField && x == 1) || exists p: nat :: p < n && PassPoc(g, list0, p) == x
  }

  ghost predicate AllCoded(g: Structure, list0: seq<Entry>, isField: bool, n: nat, available: seq<int>)
    requires g.Valid(list0)
  {
    forall x :: x in available ==> Coded(g, list0, isField, n, x)
  }

  /** Before every pass, and at the end, only coded pictures are available. */
  ghost predicate OnlyCoded(g: Structure, list0: seq<Entry>, isField: bool, frames: seq<Frame>, refs: seq<int>,
                            numRefs: nat)
    requires g.Valid(list0)
    decreases |frames|
  {
    && numRefs <= |refs| && AllCoded(g, list0, isField, |frames|, refs[..numRefs])
    && (frames != [] ==>
          var last := |frames| - 1;
          OnlyCoded(g, list0, isField, frames[..last], frames[last].refs, frames[last].numRefs))
  }

  /** The list-1 references configured for a pass name pictures coded by then. */
  ghost predicate List1Coded(g: Structure, list0: seq<Entry>, list1: seq<Entry>, isField: bool, pass: nat)
    requires g.Valid(list0) && g.Valid(list1)
  {
    forall d :: d in list1[pass % g.size].deltas && PassPoc(g, list0, pass) - d >= 0 ==>
      Coded(g, list0, isField, pass + 1, PassPoc(g, list0, pass) - d)
  }

  /** Both lists of an entry are configured for the same picture. */
  ghost predicate SamePocs(g: Structure, list0: seq<Entry>, list1: seq<Entry>)
    requires g.Valid(list0) && g.Valid(list1)
  {
    forall k :: 0 <= k < g.size ==> list0[k].poc == list1[k].poc
  }

  /** If list 0 is all present, the available pictures gain only the frame itself exactly when list 1
      names available pictures or the frame itself. */
  lemma List1DecidesAvailability(deltas0: seq<int>, deltas1: seq<int>, poc: int, available: seq<int>)
    requires AllPresent(deltas0, poc, available)
    ensures (forall x :: x in NextReferences(deltas0, deltas1, poc) ==> x == poc || x in available) <==>
            (forall d :: d in deltas1 && poc - d >= 0 ==> d == 0 || poc - d in available)
  {
    hide NextReferences;
    forall x
      ensures x in NextReferences(deltas0, deltas1, poc) <==>
        x == poc || (x >= 0 && (poc - x in deltas0 || poc - x in deltas1))
    {
      AvailableAfter(deltas0, deltas1, poc, x);
    }
    if forall x :: x in NextReferences(deltas0, deltas1, poc) ==> x == poc || x in available {
      forall d | d in deltas1 && poc - d >= 0
        ensures d == 0 || poc - d in available
      {
        assert poc - (poc - d) == d;
        assert poc - d in NextReferences(deltas0, deltas1, poc);
      }
    }
    if forall d :: d in deltas1 && poc - d >= 0 ==> d == 0 || poc - d in available {
      forall x | x in NextReferences(deltas0, deltas1, poc)
        ensures x == poc || x in available
      {
        var d := poc - x;
        assert poc - d == x;
      }
    }
  }

  // ---- over whole runs ----

  lemma SamePass(g: Structure, list0: seq<Entry>, list1: seq<Entry>, pass: nat)
    requires g.Valid(list0) && g.Valid(list1) && SamePocs(g, list0, list1)
    ensures PassPoc(g, list1, pass) == PassPoc(g, list0, pass)
  {
  }

  lemma CodedLater(g: Structure, list0: seq<Entry>, isField: bool, n: nat, m: nat, x: int)
    requires g.Valid(list0) && Coded(g, list0, isField, n, x) && n <= m
    ensures Coded(g, list0, isField, m, x)
  {
    hide PassPoc;
    if x != 0 && !(isField && x == 1) {
      var p: nat :| p < n && PassPoc(g, list0, p) == x;
      assert p < m;
    }
  }

  /** The replacements of either list are coded pictures. */
  lemma ReplacementCoded(g: Structure, list0: seq<Entry>, list: seq<Entry>, isField: bool, pass: nat, poc: int,
                         refs: seq<int>, d: int)
    requires g.Valid(list0) && g.Valid(list) && SamePocs(g, list0, list)
    requires Replacement(g, list, pass % g.size, poc, refs, pass, d)
    ensures Coded(g, list0, isField, pass, poc - d)
  {
    hide PassPoc;
    var o: nat :| o < pass && Source(g, list, pass % g.size, poc - d, o);
    SamePass(g, list0, list, o);
  }

  /** The lists a frame is coded with: list 0 names coded pictures, list 1 those it was configured with and
      coded ones. */
  lemma ListsOfFrame(g: Structure, list0: seq<Entry>, list1: seq<Entry>, isField: bool, pass: nat, f: Frame, d: int)
    requires g.Valid(list0) && g.Valid(list1) && SamePocs(g, list0, list1) && FrameOk(g, list0, list1, pass, f)
    requires !SomeMissing(list0[pass % g.size].deltas, PassPoc(g, list0, pass), f.refs[..f.numRefs])
    requires AllCoded(g, list0, isField, pass, f.refs[..f.numRefs]) && PassPoc(g, list0, pass) - d >= 0
    ensures d in f.deltas0 ==> Coded(g, list0, isField, pass, PassPoc(g, list0, pass) - d)
    ensures d in list1[pass % g.size].deltas ==> d in f.deltas1
    ensures d in f.deltas1 ==>
      d in list1[pass % g.size].deltas || Coded(g, list0, isField, pass, PassPoc(g, list0, pass) - d)
  {
    var cur, poc := pass % g.size, PassPoc(g, list0, pass);
    hide PassPoc, Completed, Coded, Replacement, Distinct, PositivesAscend;
    if !Present(g, list0, pass, f.refs, f.numRefs) {
      CompletedRefersForward(g, list0, list1, pass, f.refs);
      if Replacement(g, list0, cur, poc, f.refs, pass, d) {
        ReplacementCoded(g, list0, list0, isField, pass, poc, f.refs, d);
      }
      if Replacement(g, list1, cur, poc, f.refs, pass, d) {
        ReplacementCoded(g, list0, list1, isField, pass, poc, f.refs, d);
      }
    }
  }

  lemma DeltaOfFrame(g: Structure, list0: seq<Entry>, list1: seq<Entry>, isField: bool, pass: nat, f: Frame, d: int)
    requires g.Valid(list0) && g.Valid(list1) && SamePocs(g, list0, list1) && FrameOk(g, list0, list1, pass, f)
    requires !SomeMissing(list0[pass % g.size].deltas, PassPoc(g, list0, pass), f.refs[..f.numRefs])
    requires AllCoded(g, list0, isField, pass, f.refs[..f.numRefs]) && PassPoc(g, list0, pass) - d >= 0
    ensures d in f.deltas0 ==> Coded(g, list0, isField, pass + 1, PassPoc(g, list0, pass) - d)
    ensures d in list1[pass % g.size].deltas ==> d in f.deltas1
    ensures d in f.deltas1 ==>
      d in list1[pass % g.size].deltas || Coded(g, list0, isField, pass + 1, PassPoc(g, list0, pass) - d)
  {
    ListsOfFrame(g, list0, list1, isField, pass, f, d);
    hide *;
    var x := PassPoc(g, list0, pass) - d;
    if Coded(g, list0, isField, pass, x) {
      CodedLater(g, list0, isField, pass, pass + 1, x);
    }
  }

  /** One frame keeps the available pictures coded exactly when its configured list 1 names coded pictures. */
  lemma FrameKeepsCoded(g: Structure, list0: seq<Entry>, list1: seq<Entry>, isField: bool, pass: nat, f: Frame)
    requires g.Valid(list0) && g.Valid(list1) && SamePocs(g, list0, list1) && FrameOk(g, list0, list1, pass, f)
    requires !SomeMissing(list0[pass % g.size].deltas, PassPoc(g, list0, pass), f.refs[..f.numRefs])
    requires AllCoded(g, list0, isField, pass, f.refs[..f.numRefs])
    ensures AllCoded(g, list0, isField, pass + 1, NextReferences(f.deltas0, f.deltas1, PassPoc(g, list0, pass))) <==>
            List1Coded(g, list0, list1, isField, pass)
  {
    var poc, next := PassPoc(g, list0, pass), pass + 1;
    assert Coded(g, list0, isField, next, poc);
    hide PassPoc, NextReferences, Coded, FrameOk, SomeMissing, AllCoded;
    NextCoded(g, list0, isField, next, f.deltas0, f.deltas1, poc);
    if List1Coded(g, list0, list1, isField, pass) {
      forall d | (d in f.deltas0 || d in f.deltas1) && poc - d >= 0
        ensures Coded(g, list0, isField, next, poc - d)
      {
        DeltaOfFrame(g, list0, list1, isField, pass, f, d);
      }
    }
    if AllCoded(g, list0, isField, next, NextReferences(f.deltas0, f.deltas1, poc)) {
      forall d | d in list1[pass % g.size].deltas && poc - d >= 0
        ensures Coded(g, list0, isField, next, poc - d)
      {
        DeltaOfFrame(g, list0, list1, isField, pass, f, d);
      }
    }
  }

  /** The next available pictures are coded exactly when those of both lists are. */
  lemma NextCoded(g: Structure, list0: seq<Entry>, isField: bool, n: nat, deltas0: seq<int>, deltas1: seq<int>,
                  poc: int)
    requires g.Valid(list0) && Coded(g, list0, isField, n, poc)
    ensures AllCoded(g, list0, isField, n, NextReferences(deltas0, deltas1, poc)) <==>
            forall d :: (d in deltas0 || d in deltas1) && poc - d >= 0 ==> Coded(g, list0, isField, n, poc - d)
  {
    hide NextReferences, Coded;
    forall x
      ensures x in NextReferences(deltas0, deltas1, poc) <==>
        x == poc || (x >= 0 && (poc - x in deltas0 || poc - x in deltas1))
    {
      AvailableAfter(deltas0, deltas1, poc, x);
    }
    if AllCoded(g, list0, isField, n, NextReferences(deltas0, deltas1, poc)) {
      forall d | (d in deltas0 || d in deltas1) && poc - d >= 0
        ensures Coded(g, list0, isField, n, poc - d)
      {
        assert poc - (poc - d) == d;
        assert poc - d in NextReferences(deltas0, deltas1, poc);
      }
    }
    if forall d :: (d in deltas0 || d in deltas1) && poc - d >= 0 ==> Coded(g, list0, isField, n, poc - d) {
      forall x | x in NextReferences(deltas0, deltas1, poc)
        ensures Coded(g, list0, isField, n, x)
      {
        var d := poc - x;
        assert poc - d == x;
      }
    }
  }

  /** In a run without a missing reference, only coded pictures ever become available exactly when the
      configured list 1 of every frame names coded pictures. The check looks at list 0 alone, so it cannot
      tell. */
  lemma {:induction false} AvailableAreCoded(g: Structure, list0: seq<Entry>, list1: seq<Entry>, isField: bool,
                                             frames: seq<Frame>, refs: seq<int>, numRefs: nat)
    requires g.Valid(list0) && g.Valid(list1) && SamePocs(g, list0, list1)
    requires Run(g, list0, list1, isField, frames, refs, numRefs)
    requires forall p :: 0 <= p < |frames| ==> !Missing(g, list0, frames, p)
    ensures OnlyCoded(g, list0, isField, frames, refs, numRefs) <==>
            forall p: nat :: p < |frames| ==> List1Coded(g, list0, list1, isField, p)
    decreases |frames|
  {
    hide List1Coded, FrameOk, Coded, NextReferences, PassPoc;
    if frames == [] {
      FirstAreCoded(g, list0, isField, refs, numRefs);
    } else {
      var last := |frames| - 1;
      var f := frames[last];
      forall p | 0 <= p < last
        ensures !Missing(g, list0, frames[..last], p)
      {
        assert !Missing(g, list0, frames, p);
        assert frames[..last][p] == frames[p];
      }
      AvailableAreCoded(g, list0, list1, isField, frames[..last], f.refs, f.numRefs);
      assert !Missing(g, list0, frames, last);
      FrameFits(g, list0, list1, last, f);
      if OnlyCoded(g, list0, isField, frames[..last], f.refs, f.numRefs) {
        FrameKeepsCoded(g, list0, list1, isField, last, f);
        assert refs[..numRefs] == NextReferences(f.deltas0, f.deltas1, PassPoc(g, list0, last));
      }
      assert |frames| == last + 1;
    }
  }

  lemma FrameFits(g: Structure, list0: seq<Entry>, list1: seq<Entry>, pass: nat, f: Frame)
    requires g.Valid(list0) && g.Valid(list1) && FrameOk(g, list0, list1, pass, f)
    ensures f.numRefs <= |f.refs| == PLACES
  {
  }

  lemma FirstAreCoded(g: Structure, list0: seq<Entry>, isField: bool, refs: seq<int>, numRefs: nat)
    requires g.Valid(list0) && refs == InitialRefs(isField) && numRefs == if isField then 2 else 1
    ensures AllCoded(g, list0, isField, 0, refs[..numRefs])
  {
  }

  // ---- runs in which every reference is present ----

  ghost predicate EachPresent(g: Structure, list0: seq<Entry>, frames: seq<Frame>)
    requires g.Valid(list0)
  {
    forall p :: 0 <= p < |frames| ==> SeenAt(g, list0, frames, p % g.size, p)
  }

  lemma OneMorePresent(g: Structure, list0: seq<Entry>, frames: seq<Frame>, f: Frame)
    requires g.Valid(list0) && EachPresent(g, list0, frames) && f.numRefs <= |f.refs|
    requires Present(g, list0, |frames|, f.refs, f.numRefs)
    ensures EachPresent(g, list0, frames + [f])
  {
    hide Present;
    forall p | 0 <= p < |frames + [f]|
      ensures SeenAt(g, list0, frames + [f], p % g.size, p)
    {
      assert p < |frames| ==> SeenAt(g, list0, frames, p % g.size, p);
    }
  }

  /** One more frame with all its references, and the pictures it leaves. */
  lemma PresentStep(g: Structure, list0: seq<Entry>, list1: seq<Entry>, isField: bool, frames: seq<Frame>,
                    refs: seq<int>, numRefs: nat, next: seq<int>)
    requires g.Valid(list0) && g.Valid(list1) && Run(g, list0, list1, isField, frames, refs, numRefs)
    requires numRefs <= |refs| == PLACES && |next| <= PLACES && EachPresent(g, list0, frames)
    requires var e0, e1 := list0[|frames| % g.size], list1[|frames| % g.size];
             && e0.poc >= 0 && e1.poc >= 0
             && AllPresent(e0.deltas, PassPoc(g, list0, |frames|), refs[..numRefs])
             && NextReferences(e0.deltas, e1.deltas, PassPoc(g, list0, |frames|)) == next
    ensures var f := Frame(refs, numRefs, list0[|frames| % g.size].deltas, list1[|frames| % g.size].deltas);
            && Run(g, list0, list1, isField, frames + [f], next + refs[|next|..], |next|)
            && EachPresent(g, list0, frames + [f])
  {
    var f := Frame(refs, numRefs, list0[|frames| % g.size].deltas, list1[|frames| % g.size].deltas);
    hide PassPoc, NextReferences, Run, AllPresent, Completed, EachPresent;
    OneMorePresent(g, list0, frames, f);
    RunStep(g, list0, list1, isField, frames, f, next + refs[|next|..], |next|);
  }

  /** A run of at least one GOP with all references present is accepted. */
  lemma PresentIsVerified(g: Structure, list0: seq<Entry>, list1: seq<Entry>, frames: seq<Frame>, refs: seq<int>,
                          numRefs: nat)
    requires g.Valid(list0) && g.Valid(list1) && EachPresent(g, list0, frames) && g.size <= |frames|
    ensures Explained(g, list0, list1, frames, 0, Verified, refs, numRefs)
  {
    hide PassPoc;
    forall k | 0 <= k < g.size
      ensures Seen(g, list0, frames, k)
    {
      assert SeenAt(g, list0, frames, k % g.size, k);
    }
    forall p | 0 <= p < |frames|
      ensures !Missing(g, list0, frames, p)
    {
      assert SeenAt(g, list0, frames, p % g.size, p);
    }
  }

  /** A structure of one entry that passes the check although its list 1 names a later picture: picture 6
      becomes available after the first frame. */
  lemma UncodedAccepted(list0: seq<Entry>, list1: seq<Entry>)
    requires 0 < |list0| && 0 < |list1| && list0[0].poc == list1[0].poc == 1
    requires list0[0].deltas == [1] && list1[0].deltas == [-5]
    ensures var g, frames := Structure(1, 1), [Frame(InitialRefs(false), 1, [1], [-5])];
            var refs := [0, 6, 1] + InitialRefs(false)[3..];
            && Run(g, list0, list1, false, frames, refs, 3)
            && Explained(g, list0, list1, frames, 0, Verified, refs, 3)
            && refs[..3] == [0, 6, 1] && !Coded(g, list0, false, 1, 6)
  {
    var g, start := Structure(1, 1), InitialRefs(false);
    var f := Frame(start, 1, [1], [-5]);
    assert start[..1] == [0];
    assert PassPoc(g, list0, 0) == 1;
    assert NextReferences([1], [-5], 1) == [0, 6, 1];
    hide NextReferences, InitialRefs, PassPoc;
    assert Run(g, list0, list1, false, [], start, 1);
    PresentStep(g, list0, list1, false, [], start, 1, [0, 6, 1]);
    assert [] + [f] == [f];
    PresentIsVerified(g, list0, list1, [f], [0, 6, 1] + start[3..], 3);
  }

  /** Some n passes with all references present leave these pictures. */
  ghost predicate Reached(g: Structure, list0: seq<Entry>, list1: seq<Entry>, n: nat, available: seq<int>)
    requires g.Valid(list0) && g.Valid(list1)
  {
    exists frames, refs :: ReachedBy(g, list0, list1, frames, refs, n, available)
  }

  ghost predicate ReachedBy(g: Structure, list0: seq<Entry>, list1: seq<Entry>, frames: seq<Frame>, refs: seq<int>,
                            n: nat, available: seq<int>)
    requires g.Valid(list0) && g.Valid(list1)
  {
    && |frames| == n && |available| <= |refs| == PLACES && refs[..|available|] == available
    && Run(g, list0, list1, false, frames, refs, |available|) && EachPresent(g, list0, frames)
  }

  lemma ReachedFirst(g: Structure, list0: seq<Entry>, list1: seq<Entry>)
    requires g.Valid(list0) && g.Valid(list1)
    ensures Reached(g, list0, list1, 0, [0])
  {
    assert InitialRefs(false)[..1] == [0];
    assert ReachedBy(g, list0, list1, [], InitialRefs(false), 0, [0]);
  }

  lemma ReachedStep(g: Structure, list0: seq<Entry>, list1: seq<Entry>, n: nat, available: seq<int>, next: seq<int>)
    requires g.Valid(list0) && g.Valid(list1) && Reached(g, list0, list1, n, available) && |next| <= PLACES
    requires list0[n % g.size].poc >= 0 && list1[n % g.size].poc >= 0
    requires AllPresent(list0[n % g.size].deltas, PassPoc(g, list0, n), available)
    requires NextReferences(list0[n % g.size].deltas, list1[n % g.size].deltas, PassPoc(g, list0, n)) == next
    ensures Reached(g, list0, list1, n + 1, next)
  {
    hide PassPoc, NextReferences, Run, AllPresent, EachPresent;
    var frames, refs :| ReachedBy(g, list0, list1, frames, refs, n, available);
    PresentStep(g, list0, list1, false, frames, refs, |available|, next);
    var f := Frame(refs, |available|, list0[n % g.size].deltas, list1[n % g.size].deltas);
    assert ReachedBy(g, list0, list1, frames + [f], next + refs[|next|..], n + 1, next);
  }

  /** The check accepts the structure. */
  ghost predicate Accepted(g: Structure, list0: seq<Entry>, list1: seq<Entry>, isField: bool)
    requires g.Valid(list0) && g.Valid(list1)
  {
    exists frames, refs, numRefs ::
      && Run(g, list0, list1, isField, frames, refs, numRefs)
      && Explained(g, list0, list1, frames, 0, Verified, refs, numRefs)
  }

  lemma ReachedAccepted(g: Structure, list0: seq<Entry>, list1: seq<Entry>, n: nat, available: seq<int>)
    requires g.Valid(list0) && g.Valid(list1) && Reached(g, list0, list1, n, available) && g.size <= n
    ensures Accepted(g, list0, list1, false)
  {
    hide Run, EachPresent, Explained;
    var frames, refs :| ReachedBy(g, list0, list1, frames, refs, n, available);
    PresentIsVerified(g, list0, list1, frames, refs, |available|);
  }

  /** The lists as the configuration gives them. */
  ghost predicate Configures(gop: seq<DpbSize.Entry>, list0: seq<Entry>, list1: seq<Entry>) {
    && |gop| <= |list0| && |gop| <= |list1|
    && forall k :: 0 <= k < |gop| ==>
      && list0[k].poc == list1[k].poc == gop[k].poc
      && list0[k].deltas == gop[k].list0 && list1[k].deltas == gop[k].list1
  }

  /** A pass of the first GOP, with an entry that has no list 1. */
  lemma FirstGopPass(list0: seq<Entry>, list1: seq<Entry>, size: nat, n: nat, poc: int, deltas: seq<int>,
                     available: seq<int>, next: seq<int>)
    requires n < size <= |list0| && size <= |list1| && list0[n].poc == list1[n].poc == poc >= 0
    requires list0[n].deltas == deltas && list1[n].deltas == [] && AllPresent(deltas, poc, available)
    requires NextReferences(deltas, [], poc) == next && |next| <= PLACES
    requires Reached(Structure(size, size), list0, list1, n, available)
    ensures Reached(Structure(size, size), list0, list1, n + 1, next)
  {
    hide NextReferences, Reached, AllPresent;
    ReachedStep(Structure(size, size), list0, list1, n, available, next);
  }

  /** The structure whose derived reordering limit is too small (see DpbSize) is accepted. */
  lemma TwoLayeredAccepted(gop: seq<DpbSize.Entry>, list0: seq<Entry>, list1: seq<Entry>)
    requires DpbSize.TwoLayered(gop) && Configures(gop, list0, list1)
    ensures Accepted(Structure(4, 4), list0, list1, false)
  {
    var g := Structure(4, 4);
    TwoLayeredLists(gop, list0, list1);
    TwoLayeredNext();
    TwoLayeredPresent();
    hide *;
    ReachedFirst(g, list0, list1);
    FirstGopPass(list0, list1, 4, 0, 4, [4], [0], [0, 4]);
    FirstGopPass(list0, list1, 4, 1, 3, [3, -1], [0, 4], [0, 4, 3]);
    FirstGopPass(list0, list1, 4, 2, 1, [1, -3], [0, 4, 3], [0, 4, 1]);
    FirstGopPass(list0, list1, 4, 3, 2, [1, -2], [0, 4, 1], [1, 4, 2]);
    ReachedAccepted(g, list0, list1, 4, [1, 4, 2]);
  }

  lemma TwoLayeredLists(gop: seq<DpbSize.Entry>, list0: seq<Entry>, list1: seq<Entry>)
    requires DpbSize.TwoLayered(gop) && Configures(gop, list0, list1)
    ensures 4 <= |list0| && 4 <= |list1|
    ensures list0[0].poc == list1[0].poc == 4 && list0[0].deltas == [4] && list1[0].deltas == []
    ensures list0[1].poc == list1[1].poc == 3 && list0[1].deltas == [3, -1] && list1[1].deltas == []
    ensures list0[2].poc == list1[2].poc == 1 && list0[2].deltas == [1, -3] && list1[2].deltas == []
    ensures list0[3].poc == list1[3].poc == 2 && list0[3].deltas == [1, -2] && list1[3].deltas == []
  {
  }

  lemma TwoLayeredPresent()
    ensures AllPresent([4], 4, [0]) && AllPresent([3, -1], 3, [0, 4])
    ensures AllPresent([1, -3], 1, [0, 4, 3]) && AllPresent([1, -2], 2, [0, 4, 1])
  {
  }

  lemma TwoLayeredNext()
    ensures NextReferences([4], [], 4) == [0, 4] && NextReferences([3, -1], [], 3) == [0, 4, 3]
    ensures NextReferences([1, -3], [], 1) == [0, 4, 1] && NextReferences([1, -2], [], 2) == [1, 4, 2]
  {
  }
}

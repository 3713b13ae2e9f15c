/** Decoded-picture output ("bumping", C.5.2.3) of the decoder application, for one layer and
    frame coding. */
module Bumping {

  const MAX_INT := 2147483647

  /** The flags of a picture that output looks at. */
  datatype Pic = Pic(poc: int, needed: bool, referenced: bool, reconstructed: bool)

  /** sps_max_num_reorder_pics and sps_max_dec_pic_buffering of the highest sub-layer. */
  datatype Limits = Limits(numReorderPics: nat, maxDecPicBuffering: nat)

  predicate Waiting(p: Pic, last: int) {
    p.needed && p.poc > last
  }

  // ---- the counters ----

  function CountWaiting(l: seq<Pic>, last: int): nat {
    if l == [] then 0 else (if Waiting(l[0], last) then 1 else 0) + CountWaiting(l[1..], last)
  }

  function Fullness(l: seq<Pic>, last: int): nat {
    if l == [] then 0
    else (if Waiting(l[0], last) || l[0].referenced then 1 else 0) + Fullness(l[1..], last)
  }

  // ---- the loops as functions ----

  /** The picture list, the POC displayed last, and both counters. */
  datatype Dpb = Dpb(pics: seq<Pic>, last: int, numNotYetDisplayed: int, fullness: int, out: seq<int>)

  predicate Exceeded(numNotYetDisplayed: int, fullness: int, lim: Limits) {
    numNotYetDisplayed > lim.numReorderPics || fullness > lim.maxDecPicBuffering
  }

  function Displayed(p: Pic): Pic {
    p.(needed := false, reconstructed := p.reconstructed && p.referenced)
  }

  /** The output loop over the pictures still to be visited. */
  function BumpFrom(l: seq<Pic>, last: int, n: int, full: int, lim: Limits): (r: Dpb)
    ensures |r.pics| == |l|
  {
    if l == [] then Dpb([], last, n, full, [])
    else if Waiting(l[0], last) && Exceeded(n, full, lim) then
      var r := BumpFrom(l[1..], l[0].poc, n - 1, if l[0].referenced then full else full - 1, lim);
      r.(pics := [Displayed(l[0])] + r.pics, out := [l[0].poc] + r.out)
    else
      var r := BumpFrom(l[1..], last, n, full, lim);
      r.(pics := [l[0]] + r.pics)
  }

  /** xWriteOutput: count, then output. */
  function Bump(l: seq<Pic>, last: int, lim: Limits): Dpb {
    BumpFrom(l, last, CountWaiting(l, last), Fullness(l, last), lim)
  }

  // ---- what they mean ----

  /** The places of pictures that wait, and of pictures that wait or are still referred to. */
  ghost function WaitingPlaces(l: seq<Pic>, last: int): set<nat> {
    set i: nat | i < |l| && l[i].needed && l[i].poc > last
  }

  ghost function HeldPlaces(l: seq<Pic>, last: int): set<nat> {
    set i: nat | i < |l| && ((l[i].needed && l[i].poc > last) || l[i].referenced)
  }

  lemma {:induction false} ShiftedSize(a: set<nat>, b: set<nat>)
    requires forall i: nat :: i in b ==> i > 0 && i - 1 in a
    requires forall i: nat :: i in a ==> i + 1 in b
    ensures |b| == |a|
    decreases |a|
  {
    if a == {} {
      assert b == {};
    } else {
      var x :| x in a;
      ShiftedSize(a - {x}, b - {x + 1});
    }
  }

  /** The places of a longer list: the first one, and those of the rest one further on. */
  lemma ShiftedPlaces(a: set<nat>, b: set<nat>, first: bool)
    requires first <==> 0 in b
    requires forall i: nat :: i in b && i > 0 ==> i - 1 in a
    requires forall i: nat :: i in a ==> i + 1 in b
    ensures |b| == |a| + if first then 1 else 0
  {
    ShiftedSize(a, b - {0});
  }

  /** The counters are the numbers of those places. */
  lemma {:induction false} CountersCount(l: seq<Pic>, last: int)
    ensures CountWaiting(l, last) == |WaitingPlaces(l, last)| && Fullness(l, last) == |HeldPlaces(l, last)|
  {
    if l == [] {
      assert WaitingPlaces(l, last) == {} && HeldPlaces(l, last) == {};
    } else {
      CountersCount(l[1..], last);
      ShiftedPlaces(WaitingPlaces(l[1..], last), WaitingPlaces(l, last), Waiting(l[0], last));
      ShiftedPlaces(HeldPlaces(l[1..], last), HeldPlaces(l, last), Waiting(l[0], last) || l[0].referenced);
    }
  }

  /** A picture that is written is no longer needed, and its samples are given up unless it is referred to. */
  ghost predicate Released(before: Pic, after: Pic) {
    && before.needed && !after.needed && after.poc == before.poc && after.referenced == before.referenced
    && (after.reconstructed <==> before.reconstructed && before.referenced)
  }

  /** The pictures after a call: those written are released, the others are as they were. */
  ghost predicate OnlyReleases(before: seq<Pic>, after: seq<Pic>, out: seq<int>)
    decreases before
  {
    && |before| == |after|
    && (before == [] ==> out == [])
    && (before != [] ==>
          || (after[0] == before[0] && OnlyReleases(before[1..], after[1..], out))
          || (Released(before[0], after[0]) && out != [] && out[0] == before[0].poc &&
              OnlyReleases(before[1..], after[1..], out[1..])))
  }

  /** What is written is what is released. */
  lemma {:induction false} OutputReleases(l: seq<Pic>, last: int, n: int, full: int, lim: Limits)
    ensures var r := BumpFrom(l, last, n, full, lim); OnlyReleases(l, r.pics, r.out)
  {
    if l != [] {
      if Waiting(l[0], last) && Exceeded(n, full, lim) {
        OutputReleases(l[1..], l[0].poc, n - 1, if l[0].referenced then full else full - 1, lim);
      } else {
        OutputReleases(l[1..], last, n, full, lim);
      }
    }
  }

  /** POCs of the pictures needed for output, in list order. */
  function NeededPocs(l: seq<Pic>): seq<int> {
    if l == [] then [] else (if l[0].needed then [l[0].poc] else []) + NeededPocs(l[1..])
  }

  // ---- the code ----

  class Picture {
    var poc: int
    var neededForOutput: bool
    var referenced: bool
    var reconstructed: bool

    function Snapshot(): Pic
      reads this
    {
      Pic(poc, neededForOutput, referenced, reconstructed)
    }
  }

  function Snapshots(pics: seq<Picture>): (l: seq<Pic>)
    reads pics
    ensures |l| == |pics| && forall i :: 0 <= i < |l| ==> l[i] == pics[i].Snapshot()
  {
    seq(|pics|, i requires 0 <= i < |pics| reads pics => pics[i].Snapshot())
  }

  predicate Distinct(pics: seq<Picture>) {
    forall i, j :: 0 <= i < j < |pics| ==> pics[i] != pics[j]
  }

  class DecApp {
    var pocLastDisplay: int
    var outputLog: seq<int>   // POCs of the pictures written, in order

    method WriteOutput(pics: seq<Picture>, lim: Limits)
      requires Distinct(pics)
      modifies this, pics
      ensures var r := Bump(old(Snapshots(pics)), old(pocLastDisplay), lim);
              Snapshots(pics) == r.pics && pocLastDisplay == r.last && outputLog == old(outputLog) + r.out
      ensures |outputLog| >= |old(outputLog)|
      ensures OnlyReleases(old(Snapshots(pics)), Snapshots(pics), outputLog[|old(outputLog)|..])
    {
      ghost var before := Snapshots(pics);
      var n, full := Count(pics);
      ghost var r := Bump(before, pocLastDisplay, lim);
      assert before[0..] == before;
      hide BumpFrom, Continues, Bump;
      for i := 0 to |pics|
        invariant Visited(pics, before, r, i)
        invariant Continues(r, BumpFrom(before[i..], pocLastDisplay, n, full, lim), i, old(outputLog), outputLog)
      {
        n, full := Visit(pics, i, lim, n, full, before, r, old(outputLog));
      }
      VisitedAll(pics, before, r);
      ContinuesToEnd(r, before, pocLastDisplay, n, full, lim, old(outputLog), outputLog);
      BumpReleases(before, old(pocLastDisplay), lim);
      assert (old(outputLog) + r.out)[|old(outputLog)|..] == r.out;
    }

    /** One picture of the loop: written if it waits and a limit is exceeded. */
    method Visit(pics: seq<Picture>, i: nat, lim: Limits, n: int, full: int, ghost before: seq<Pic>, ghost r: Dpb,
                 ghost logBefore: seq<int>)
      returns (waiting: int, fullness: int)
      requires Distinct(pics) && i < |pics| && Visited(pics, before, r, i)
      requires Continues(r, BumpFrom(before[i..], pocLastDisplay, n, full, lim), i, logBefore, outputLog)
      modifies this, pics[i]
      ensures Visited(pics, before, r, i + 1)
      ensures Continues(r, BumpFrom(before[i + 1..], pocLastDisplay, waiting, fullness, lim), i + 1, logBefore,
                        outputLog)
    {
      hide BumpFrom, Continues;
      waiting, fullness := n, full;
      var pic := pics[i];
      BumpStep(before, i, pocLastDisplay, n, full, lim, r, logBefore, outputLog);
      if pic.neededForOutput && pic.poc > pocLastDisplay
        && (n > lim.numReorderPics || full > lim.maxDecPicBuffering) {
        waiting := n - 1;
        if !pic.referenced {
          fullness := full - 1;
        }
        Output(pic);
      }
    }

    /** Write one picture and release it. */
    method Output(pic: Picture)
      modifies this, pic`neededForOutput, pic`reconstructed
      ensures pic.Snapshot() == Displayed(old(pic.Snapshot()))
      ensures old(pic.neededForOutput) ==> Released(old(pic.Snapshot()), pic.Snapshot())
      ensures pocLastDisplay == pic.poc && outputLog == old(outputLog) + [pic.poc]
    {
      outputLog := outputLog + [pic.poc];
      pocLastDisplay := pic.poc;
      if !pic.referenced && pic.reconstructed {
        pic.reconstructed := false;
      }
      pic.neededForOutput := false;
    }

    method Count(pics: seq<Picture>) returns (n: nat, full: nat)
      ensures n == CountWaiting(Snapshots(pics), pocLastDisplay)
      ensures full == Fullness(Snapshots(pics), pocLastDisplay)
      ensures n == |WaitingPlaces(Snapshots(pics), pocLastDisplay)|
      ensures full == |HeldPlaces(Snapshots(pics), pocLastDisplay)|
    {
      hide WaitingPlaces, HeldPlaces;
      CountersCount(Snapshots(pics), pocLastDisplay);
      ghost var l := Snapshots(pics);
      n, full := 0, 0;
      assert l[0..] == l;
      for i := 0 to |pics|
        invariant n + CountWaiting(l[i..], pocLastDisplay) == CountWaiting(l, pocLastDisplay)
        invariant full + Fullness(l[i..], pocLastDisplay) == Fullness(l, pocLastDisplay)
      {
        assert l[i..][1..] == l[i + 1..];
        if pics[i].neededForOutput && pics[i].poc > pocLastDisplay {
          n := n + 1;
          full := full + 1;
        } else if pics[i].referenced {
          full := full + 1;
        }
      }
    }

    /** xFlushOutput: write whatever is needed, drop all pictures, forget the last POC. */
    method FlushOutput(pics: seq<Picture>) returns (left: seq<Picture>)
      requires Distinct(pics)
      modifies this, pics
      ensures left == []
      ensures pocLastDisplay == if pics == [] then old(pocLastDisplay) else -MAX_INT
      ensures outputLog == old(outputLog) + NeededPocs(old(Snapshots(pics)))
    {
      if pics == [] {
        return [];
      }
      ghost var before := Snapshots(pics);
      assert before[0..] == before;
      for i := 0 to |pics|
        invariant forall j :: i <= j < |pics| ==> pics[j].Snapshot() == before[j]
        invariant old(outputLog) + NeededPocs(before) == outputLog + NeededPocs(before[i..])
      {
        var pic := pics[i];
        assert before[i..][1..] == before[i + 1..];
        if pic.neededForOutput {
          assert outputLog + ([pic.poc] + NeededPocs(before[i + 1..]))
              == outputLog + [pic.poc] + NeededPocs(before[i + 1..]);
          Output(pic);
        }
      }
      left := [];
      pocLastDisplay := -MAX_INT;
    }
  }

  lemma BumpReleases(l: seq<Pic>, last: int, lim: Limits)
    ensures OnlyReleases(l, Bump(l, last, lim).pics, Bump(l, last, lim).out)
  {
    OutputReleases(l, last, CountWaiting(l, last), Fullness(l, last), lim);
  }

  /** The first i pictures are as the result says, the others as before. */
  ghost predicate Visited(pics: seq<Picture>, before: seq<Pic>, r: Dpb, i: nat)
    reads pics
  {
    && |before| == |r.pics| == |pics|
    && (forall j :: 0 <= j < |pics| ==> pics[j].Snapshot() == if j < i then r.pics[j] else before[j])
  }

  lemma VisitedAll(pics: seq<Picture>, before: seq<Pic>, r: Dpb)
    requires Visited(pics, before, r, |pics|)
    ensures Snapshots(pics) == r.pics
  {
  }

  lemma ContinuesToEnd(r: Dpb, before: seq<Pic>, last: int, n: int, full: int, lim: Limits, logBefore: seq<int>,
                       log: seq<int>)
    requires Continues(r, BumpFrom(before[|before|..], last, n, full, lim), |before|, logBefore, log)
    ensures r.last == last && logBefore + r.out == log
  {
  }

  /** The loop has visited i pictures; `rest` is what remains to be done. */
  ghost predicate Continues(whole: Dpb, rest: Dpb, i: nat, logBefore: seq<int>, log: seq<int>) {
    && i + |rest.pics| == |whole.pics|
    && (forall j :: i <= j < |whole.pics| ==> whole.pics[j] == rest.pics[j - i])
    && whole.last == rest.last
    && logBefore + whole.out == log + rest.out
  }

  /** One visit: the picture is output or kept, and the rest of the loop goes on from there. */
  lemma BumpStep(l: seq<Pic>, i: nat, last: int, n: int, full: int, lim: Limits,
                 whole: Dpb, logBefore: seq<int>, log: seq<int>)
    requires i < |l| && Continues(whole, BumpFrom(l[i..], last, n, full, lim), i, logBefore, log)
    ensures i < |whole.pics|
    ensures if Waiting(l[i], last) && Exceeded(n, full, lim) then
        && whole.pics[i] == Displayed(l[i])
        && Continues(whole, BumpFrom(l[i + 1..], l[i].poc, n - 1, if l[i].referenced then full else full - 1, lim),
                     i + 1, logBefore, log + [l[i].poc])
      else
        && whole.pics[i] == l[i]
        && Continues(whole, BumpFrom(l[i + 1..], last, n, full, lim), i + 1, logBefore, log)
  {
    var t := l[i..];
    assert t[0] == l[i] && t[1..] == l[i + 1..];
    BumpNext(t, last, n, full, lim);
    hide BumpFrom, Waiting, Exceeded, Displayed;
    var rest := BumpFrom(t, last, n, full, lim);
    assert whole.pics[i] == rest.pics[0];
    if Waiting(l[i], last) && Exceeded(n, full, lim) {
      var r := BumpFrom(l[i + 1..], l[i].poc, n - 1, if l[i].referenced then full else full - 1, lim);
      assert log + ([l[i].poc] + r.out) == log + [l[i].poc] + r.out;
    }
  }

  lemma BumpNext(t: seq<Pic>, last: int, n: int, full: int, lim: Limits)
    requires t != []
    ensures BumpFrom(t, last, n, full, lim) ==
            if Waiting(t[0], last) && Exceeded(n, full, lim) then
              var r := BumpFrom(t[1..], t[0].poc, n - 1, if t[0].referenced then full else full - 1, lim);
              r.(pics := [Displayed(t[0])] + r.pics, out := [t[0].poc] + r.out)
            else
              var r := BumpFrom(t[1..], last, n, full, lim);
              r.(pics := [t[0]] + r.pics)
  {
  }
}

/** Picture output over whole runs: the counters are exact, the limits are met, and under the
    reordering limit every picture comes out exactly once and in order. */
module BumpingRuns {
  import opened Bumping

  ghost predicate StrictlyIncreasing(s: seq<int>) {
    forall i, j :: 0 <= i < j < |s| ==> s[i] < s[j]
  }

  /** sortPicList has run and no two pictures needed for output share a POC. */
  ghost predicate Sorted(l: seq<Pic>) {
    StrictlyIncreasing(NeededPocs(l))
  }

  // ---- the counters stay exact ----

  lemma {:induction false} CountConcat(a: seq<Pic>, b: seq<Pic>, last: int)
    ensures CountWaiting(a + b, last) == CountWaiting(a, last) + CountWaiting(b, last)
    ensures Fullness(a + b, last) == Fullness(a, last) + Fullness(b, last)
  {
    if a == [] {
      assert a + b == b;
    } else {
      CountConcat(a[1..], b, last);
      assert (a + b)[1..] == a[1..] + b;
    }
  }

  /** Raising the last POC changes nothing where nothing was waiting. */
  lemma {:induction false} NoneWaiting(l: seq<Pic>, last: int, higher: int)
    requires CountWaiting(l, last) == 0 && last <= higher
    ensures CountWaiting(l, higher) == 0 && Fullness(l, higher) == Fullness(l, last)
  {
    if l != [] {
      NoneWaiting(l[1..], last, higher);
    }
  }

  /** Nor where every needed picture is later still. */
  lemma {:induction false} AllLater(l: seq<Pic>, last: int, higher: int)
    requires last <= higher && forall x :: x in NeededPocs(l) ==> x > higher
    ensures CountWaiting(l, higher) == CountWaiting(l, last) && Fullness(l, higher) == Fullness(l, last)
  {
    if l != [] {
      if l[0].needed {
        assert l[0].poc in NeededPocs(l);
      }
      forall x | x in NeededPocs(l[1..])
        ensures x > higher
      {
        assert x in NeededPocs(l);
      }
      AllLater(l[1..], last, higher);
    }
  }

  /** Both counters agree with a recount of the list. */
  ghost predicate Exact(l: seq<Pic>, last: int, n: int, full: int) {
    n == CountWaiting(l, last) && full == Fullness(l, last)
  }

  /** While a limit is exceeded, no picture is waiting among those already visited. */
  ghost predicate VisitedOut(visited: seq<Pic>, last: int, n: int, full: int, lim: Limits) {
    Exceeded(n, full, lim) ==> CountWaiting(visited, last) == 0
  }

  lemma IncreasingTail(x: int, s: seq<int>)
    requires StrictlyIncreasing([x] + s)
    ensures StrictlyIncreasing(s) && forall y :: y in s ==> y > x
  {
    var t := [x] + s;
    forall i, j | 0 <= i < j < |s|
      ensures s[i] < s[j]
    {
      assert t[i + 1] < t[j + 1];
    }
    forall y | y in s
      ensures y > x
    {
      var i :| 0 <= i < |s| && s[i] == y;
      assert t[0] < t[i + 1];
    }
  }

  lemma IncreasingCons(x: int, s: seq<int>)
    requires StrictlyIncreasing(s) && (s != [] ==> x < s[0])
    ensures StrictlyIncreasing([x] + s)
  {
    var t := [x] + s;
    forall i, j | 0 <= i < j < |t|
      ensures t[i] < t[j]
    {
      assert s[0] <= s[j - 1];
    }
  }

  lemma NeededTail(p: Pic, l: seq<Pic>)
    requires Sorted([p] + l)
    ensures Sorted(l) && (p.needed ==> forall x :: x in NeededPocs(l) ==> x > p.poc)
  {
    var s := [p] + l;
    assert s[1..] == l;
    if p.needed {
      IncreasingTail(p.poc, NeededPocs(l));
    } else {
      NeededCons(p, l);
    }
  }

  lemma OutputKeepsExact(visited: seq<Pic>, p: Pic, tail: seq<Pic>, last: int, n: int, full: int, lim: Limits)
    requires Exact(visited + ([p] + tail), last, n, full) && VisitedOut(visited, last, n, full, lim)
    requires Sorted([p] + tail) && Waiting(p, last) && Exceeded(n, full, lim)
    ensures Exact(visited + [Displayed(p)] + tail, p.poc, n - 1, if p.referenced then full else full - 1)
    ensures CountWaiting(visited + [Displayed(p)], p.poc) == 0
  {
    var q := Displayed(p);
    NeededTail(p, tail);
    NoneWaiting(visited, last, p.poc);
    AllLater(tail, last, p.poc);
    CountConcat(visited, [p] + tail, last);
    CountConcat([p], tail, last);
    CountConcat(visited, [q], p.poc);
    CountConcat(visited + [q], tail, p.poc);
    CountOne(p, last);
    CountOne(q, p.poc);
  }

  lemma CountOne(p: Pic, last: int)
    ensures CountWaiting([p], last) == if Waiting(p, last) then 1 else 0
    ensures Fullness([p], last) == if Waiting(p, last) || p.referenced then 1 else 0
  {
    assert [p][1..] == [];
  }

  /** At every point of the output loop, after any number of outputs, the counters equal a fresh
      recount of the whole list: `visited`, then what became of `here`, then `tail`. */
  lemma {:induction false} LoopExact(visited: seq<Pic>, here: seq<Pic>, tail: seq<Pic>, last: int, n: int, full: int,
                                     lim: Limits)
    requires Exact(visited + (here + tail), last, n, full) && VisitedOut(visited, last, n, full, lim)
    requires Sorted(here + tail)
    ensures var r := BumpFrom(here, last, n, full, lim);
            && Exact(visited + r.pics + tail, r.last, r.numNotYetDisplayed, r.fullness)
            && VisitedOut(visited + r.pics, r.last, r.numNotYetDisplayed, r.fullness, lim)
    decreases |here|
  {
    if here == [] {
      assert visited + [] == visited && here + tail == tail;
    } else {
      var p, rest := here[0], here[1..];
      assert here == [p] + rest && here + tail == [p] + (rest + tail);
      NeededTail(p, rest + tail);
      hide BumpFrom, Exact, VisitedOut, Sorted;
      BumpNext(here, last, n, full, lim);
      if Waiting(p, last) && Exceeded(n, full, lim) {
        OutputKeepsExact(visited, p, rest + tail, last, n, full, lim);
        LoopExact(visited + [Displayed(p)], rest, tail, p.poc, n - 1, if p.referenced then full else full - 1, lim);
        var q := BumpFrom(rest, p.poc, n - 1, if p.referenced then full else full - 1, lim);
        Reassociate(visited, Displayed(p), q.pics);
      } else {
        KeepExact(visited, p, rest + tail, last, n, full, lim);
        LoopExact(visited + [p], rest, tail, last, n, full, lim);
        Reassociate(visited, p, BumpFrom(rest, last, n, full, lim).pics);
      }
    }
  }

  lemma Reassociate(a: seq<Pic>, p: Pic, b: seq<Pic>)
    ensures a + [p] + b == a + ([p] + b)
  {
  }

  /** A picture that is kept joins the visited ones. */
  lemma KeepExact(visited: seq<Pic>, p: Pic, rest: seq<Pic>, last: int, n: int, full: int, lim: Limits)
    requires Exact(visited + ([p] + rest), last, n, full) && VisitedOut(visited, last, n, full, lim)
    requires !(Waiting(p, last) && Exceeded(n, full, lim))
    ensures Exact(visited + [p] + rest, last, n, full) && VisitedOut(visited + [p], last, n, full, lim)
  {
    CountConcat(visited, [p], last);
    CountOne(p, last);
    Reassociate(visited, p, rest);
    hide CountWaiting, Fullness;
  }

  /** After visiting any i pictures of a sorted list the counters are those of a recount, and on
      exit either nothing is waiting or both limits are met. */
  lemma CountersExact(l: seq<Pic>, last: int, lim: Limits, i: nat)
    requires Sorted(l) && i <= |l|
    ensures var r := BumpFrom(l[..i], last, CountWaiting(l, last), Fullness(l, last), lim);
            && r.numNotYetDisplayed == CountWaiting(r.pics + l[i..], r.last)
            && r.fullness == Fullness(r.pics + l[i..], r.last)
    ensures var r := Bump(l, last, lim);
            || CountWaiting(r.pics, r.last) == 0
            || (CountWaiting(r.pics, r.last) <= lim.numReorderPics && Fullness(r.pics,
                                                                               r.last) <= lim.maxDecPicBuffering)
  {
    var n, full := CountWaiting(l, last), Fullness(l, last);
    assert l[..i] + l[i..] == l && [] + l == l && l + [] == l;
    LoopExact([], l[..i], l[i..], last, n, full, lim);
    assert [] + BumpFrom(l[..i], last, n, full, lim).pics == BumpFrom(l[..i], last, n, full, lim).pics;
    LoopExact([], l, [], last, n, full, lim);
    var r := Bump(l, last, lim);
    assert [] + r.pics + [] == r.pics && [] + r.pics == r.pics;
  }

  /** Whatever the list, one call outputs increasing POCs above the last one. */
  lemma {:induction false} OutputsIncrease(l: seq<Pic>, last: int, n: int, full: int, lim: Limits)
    ensures var r := BumpFrom(l, last, n, full, lim);
            && StrictlyIncreasing([last] + r.out)
            && r.last == ([last] + r.out)[|r.out|]
  {
    if l != [] {
      var r := BumpFrom(l, last, n, full, lim);
      if Waiting(l[0], last) && Exceeded(n, full, lim) {
        var m, f := n - 1, if l[0].referenced then full else full - 1;
        OutputsIncrease(l[1..], l[0].poc, m, f, lim);
        var q := BumpFrom(l[1..], l[0].poc, m, f, lim);
        IncreasingCons(last, r.out);
      } else {
        OutputsIncrease(l[1..], last, n, full, lim);
      }
    }
  }

  // ---- what one call outputs, below the buffering limit ----

  /** The first k of the needed POCs have been written, the others are left. */
  ghost predicate Earliest(out: seq<int>, left: seq<int>, reached: int, needed: seq<int>, last: int, k: nat) {
    && k <= |needed|
    && out == needed[..k] && left == needed[k..]
    && reached == if k == 0 then last else needed[k - 1]
  }

  function OutputCount(n: int, lim: Limits): nat {
    if n > lim.numReorderPics then n - lim.numReorderPics else 0
  }

  ghost predicate AllAbove(l: seq<Pic>, last: int) {
    forall x :: x in NeededPocs(l) ==> x > last
  }

  lemma TailAbove(p: Pic, tail: seq<Pic>, last: int)
    requires Sorted([p] + tail) && AllAbove([p] + tail, last)
    ensures Sorted(tail) && AllAbove(tail, last)
    ensures p.needed ==> p.poc > last && AllAbove(tail, p.poc)
  {
    NeededTail(p, tail);
    NeededCons(p, tail);
    hide NeededPocs, Sorted;
    var needed := NeededPocs([p] + tail);
    if p.needed {
      assert needed[0] == p.poc && p.poc in needed;
    }
    assert forall x :: x in NeededPocs(tail) ==> x in needed;
  }

  /** A call outputs the earliest waiting pictures, as many as exceed the reordering limit. */
  lemma {:induction false} OutputsEarliest(l: seq<Pic>, last: int, n: int, full: int, lim: Limits)
    requires Sorted(l) && full <= lim.maxDecPicBuffering
    requires AllAbove(l, last)
    requires n == |NeededPocs(l)| || n <= lim.numReorderPics
    ensures var r := BumpFrom(l, last, n, full, lim);
            Earliest(r.out, NeededPocs(r.pics), r.last, NeededPocs(l), last, OutputCount(n, lim))
  {
    hide *;
    if l == [] {
      NothingToOutput(last, n, full, lim);
    } else {
      var p, tail := l[0], l[1..];
      assert l == [p] + tail;
      TailAbove(p, tail, last);
      NeededCons(p, tail);
      if p.needed && n > lim.numReorderPics {
        OutputsEarliest(tail, p.poc, n - 1, if p.referenced then full else full - 1, lim);
        OneOutput(p, tail, last, n, full, lim);
      } else {
        OutputsEarliest(tail, last, n, full, lim);
        OneKept(p, tail, last, n, full, lim);
      }
    }
  }

  lemma NothingToOutput(last: int, n: int, full: int, lim: Limits)
    requires n == |NeededPocs([])| || n <= lim.numReorderPics
    ensures var r := BumpFrom([], last, n, full, lim);
            Earliest(r.out, NeededPocs(r.pics), r.last, NeededPocs([]), last, OutputCount(n, lim))
  {
  }

  lemma OneOutput(p: Pic, tail: seq<Pic>, last: int, n: int, full: int, lim: Limits)
    requires p.needed && p.poc > last && n > lim.numReorderPics
    requires var q := BumpFrom(tail, p.poc, n - 1, if p.referenced then full else full - 1, lim);
             Earliest(q.out, NeededPocs(q.pics), q.last, NeededPocs(tail), p.poc, OutputCount(n - 1, lim))
    ensures var r := BumpFrom([p] + tail, last, n, full, lim);
            Earliest(r.out, NeededPocs(r.pics), r.last, NeededPocs([p] + tail), last, OutputCount(n, lim))
  {
    hide NeededPocs, BumpFrom, Earliest;
    VisitOutput(p, tail, last, n, full, lim);
    NeededCons(p, tail);
    var q := BumpFrom(tail, p.poc, n - 1, if p.referenced then full else full - 1, lim);
    EarliestOutput(p.poc, q.out, NeededPocs(q.pics), q.last, NeededPocs(tail), last, OutputCount(n - 1, lim));
  }

  lemma OneKept(p: Pic, tail: seq<Pic>, last: int, n: int, full: int, lim: Limits)
    requires full <= lim.maxDecPicBuffering && !(p.needed && n > lim.numReorderPics)
    requires var q := BumpFrom(tail, last, n, full, lim);
             Earliest(q.out, NeededPocs(q.pics), q.last, NeededPocs(tail), last, OutputCount(n, lim))
    ensures var r := BumpFrom([p] + tail, last, n, full, lim);
            Earliest(r.out, NeededPocs(r.pics), r.last, NeededPocs([p] + tail), last, OutputCount(n, lim))
  {
    hide NeededPocs, BumpFrom, Earliest;
    VisitKeep(p, tail, last, n, full, lim);
    NeededCons(p, tail);
    var q := BumpFrom(tail, last, n, full, lim);
    if p.needed {
      EarliestKeep(p.poc, q.out, NeededPocs(q.pics), q.last, NeededPocs(tail), last);
    }
  }

  lemma EarliestOutput(x: int, out: seq<int>, left: seq<int>, reached: int, needed: seq<int>, last: int, k: nat)
    requires Earliest(out, left, reached, needed, x, k)
    ensures Earliest([x] + out, left, reached, [x] + needed, last, k + 1)
  {
    assert ([x] + needed)[..k + 1] == [x] + needed[..k] && ([x] + needed)[k + 1..] == needed[k..];
  }

  lemma EarliestKeep(x: int, out: seq<int>, left: seq<int>, reached: int, needed: seq<int>, last: int)
    requires Earliest(out, left, reached, needed, last, 0)
    ensures Earliest(out, [x] + left, reached, [x] + needed, last, 0)
  {
  }

  lemma VisitOutput(p: Pic, tail: seq<Pic>, last: int, n: int, full: int, lim: Limits)
    requires Waiting(p, last) && Exceeded(n, full, lim)
    ensures var r := BumpFrom([p] + tail, last, n, full, lim);
            var q := BumpFrom(tail, p.poc, n - 1, if p.referenced then full else full - 1, lim);
            r.out == [p.poc] + q.out && r.last == q.last && NeededPocs(r.pics) == NeededPocs(q.pics)
  {
    assert ([p] + tail)[1..] == tail;
    var q := BumpFrom(tail, p.poc, n - 1, if p.referenced then full else full - 1, lim);
    NeededCons(Displayed(p), q.pics);
  }

  lemma VisitKeep(p: Pic, tail: seq<Pic>, last: int, n: int, full: int, lim: Limits)
    requires !(Waiting(p, last) && Exceeded(n, full, lim))
    ensures var r, q := BumpFrom([p] + tail, last, n, full, lim), BumpFrom(tail, last, n, full, lim);
            && r.out == q.out && r.last == q.last
            && NeededPocs(r.pics) == if p.needed then [p.poc] + NeededPocs(q.pics) else NeededPocs(q.pics)
  {
    assert ([p] + tail)[1..] == tail;
    NeededCons(p, BumpFrom(tail, last, n, full, lim).pics);
  }

  lemma NeededCons(p: Pic, l: seq<Pic>)
    ensures NeededPocs([p] + l) == if p.needed then [p.poc] + NeededPocs(l) else NeededPocs(l)
  {
    assert ([p] + l)[1..] == l;
    if !p.needed {
      var empty: seq<int> := [];
      assert empty + NeededPocs(l) == NeededPocs(l);
    }
  }

  lemma {:induction false} AllWaiting(l: seq<Pic>, last: int)
    requires forall x :: x in NeededPocs(l) ==> x > last
    ensures CountWaiting(l, last) == |NeededPocs(l)|
  {
    if l != [] {
      if l[0].needed {
        assert l[0].poc in NeededPocs(l);
      }
      assert forall x :: x in NeededPocs(l[1..]) ==> x in NeededPocs(l);
      AllWaiting(l[1..], last);
    }
  }

  // ---- runs ----

  /** One call of xWriteOutput: the list it is given, and the POC of the picture needed for
      output that was decoded since the previous call, if there is one. */
  datatype Call = Call(added: seq<int>, list: seq<Pic>)

  /** The decoder between two calls; `decoded` is history, in decoding order. */
  datatype Decoder = Decoder(pics: seq<Pic>, last: int, out: seq<int>, decoded: seq<int>)

  function After(s: Decoder, c: Call, lim: Limits): Decoder {
    var r := Bump(c.list, s.last, lim);
    Decoder(r.pics, r.last, s.out + r.out, s.decoded + c.added)
  }

  function Run(start: int, calls: seq<Call>, lim: Limits): Decoder {
    if calls == [] then Decoder([], start, [], [])
    else After(Run(start, calls[..|calls| - 1], lim), calls[|calls| - 1], lim)
  }

  function AtLeast(s: seq<int>, x: int): set<int> {
    set y | y in s && y >= x
  }

  function Above(s: seq<int>, x: int): set<int> {
    set y | y in s && y > x
  }

  /** What the decoder and a conforming stream guarantee of a call: the list is sorted; exactly
      the needed pictures of the previous list and the new one are needed (reference flags are
      free, and so are pictures that are not needed); the new POC is new, follows at most
      numReorderPics larger ones in decoding order, and the list fits the buffer. */
  ghost predicate Legal(s: Decoder, c: Call, start: int, lim: Limits) {
    && Sorted(c.list)
    && |c.added| <= 1
    && (forall x :: x in NeededPocs(c.list) <==> x in NeededPocs(s.pics) || x in c.added)
    && (forall q :: q in c.added ==> q !in s.decoded && q > start && |Above(s.decoded, q)| <= lim.numReorderPics)
    && Fullness(c.list, s.last) <= lim.maxDecPicBuffering
  }

  ghost predicate LegalRun(start: int, calls: seq<Call>, lim: Limits) {
    forall k :: 0 <= k < |calls| ==> Legal(Run(start, calls[..k], lim), calls[k], start, lim)
  }

  /** Outputs so far increase, and everything still needed comes after the last one. */
  ghost predicate Ordered(s: Decoder, start: int) {
    && Sorted(s.pics)
    && StrictlyIncreasing(s.out)
    && (s.last == if s.out == [] then start else s.out[|s.out| - 1])
    && (forall x :: x in NeededPocs(s.pics) ==> x > s.last)
  }

  /** Every decoded picture is either written or still needed. */
  ghost predicate Accounted(s: Decoder, start: int) {
    && (forall x :: x in s.decoded <==> x in s.out || x in NeededPocs(s.pics))
    && (forall x :: x in s.decoded ==> x > start)
    && (forall i, j :: 0 <= i < j < |s.decoded| ==> s.decoded[i] != s.decoded[j])
  }

  /** After an output, more pictures than may be reordered have reached the last POC. */
  ghost predicate Overtaken(s: Decoder, lim: Limits) {
    s.out != [] ==> |AtLeast(s.decoded, s.last)| > lim.numReorderPics
  }

  /** What every run keeps. */
  ghost predicate InOrder(s: Decoder, start: int, lim: Limits) {
    Ordered(s, start) && Accounted(s, start) && Overtaken(s, lim)
  }

  /** A new picture comes after everything already displayed. */
  lemma NewPictureIsLater(s: Decoder, c: Call, start: int, lim: Limits)
    requires InOrder(s, start, lim) && Legal(s, c, start, lim)
    ensures forall q :: q in c.added ==> q > s.last
  {
    forall q | q in c.added
      ensures q > s.last
    {
      if s.out != [] && q <= s.last {
        assert s.last in s.out;
        assert AtLeast(s.decoded, s.last) <= Above(s.decoded, q);
        Subset(AtLeast(s.decoded, s.last), Above(s.decoded, q));
      }
    }
  }

  lemma Subset(a: set<int>, b: set<int>)
    requires a <= b
    ensures |a| <= |b|
  {
    assert a + (b - a) == b && a * (b - a) == {};
  }

  /** The elements of an increasing sequence, counted. */
  lemma {:induction false} CountIncreasing(s: seq<int>, t: set<int>)
    requires StrictlyIncreasing(s) && forall x :: x in s ==> x in t
    ensures |s| <= |t|
  {
    if s != [] {
      var x, init := s[|s| - 1], s[..|s| - 1];
      assert forall i :: 0 <= i < |init| ==> init[i] == s[i] < x;
      CountIncreasing(init, t - {x});
    }
  }

  lemma RestIsAboveDisplayed(s: Decoder, c: Call, start: int, lim: Limits)
    requires InOrder(s, start, lim) && Legal(s, c, start, lim)
    ensures forall x :: x in NeededPocs(c.list) ==> x > s.last
  {
    NewPictureIsLater(s, c, start, lim);
  }

  /** What one call does to a state in order. */
  lemma CallEffect(s: Decoder, c: Call, start: int, lim: Limits)
    requires InOrder(s, start, lim) && Legal(s, c, start, lim)
    ensures var needed, t := NeededPocs(c.list), After(s, c, lim);
            var k := OutputCount(|needed|, lim);
            && k <= |needed| && t.out == s.out + needed[..k] && NeededPocs(t.pics) == needed[k..]
            && t.last == if k == 0 then s.last else needed[k - 1]
  {
    hide NeededPocs, BumpFrom, CountWaiting, Fullness;
    RestIsAboveDisplayed(s, c, start, lim);
    AllWaiting(c.list, s.last);
    OutputsEarliest(c.list, s.last, |NeededPocs(c.list)|, Fullness(c.list, s.last), lim);
  }

  /** The picture displayed last and those still waiting are more than the reordering limit. */
  lemma ManyAtLeast(decoded: seq<int>, needed: seq<int>, k: nat, reorder: nat)
    requires StrictlyIncreasing(needed) && 1 <= k <= |needed| && |needed| - k >= reorder
    requires forall x :: x in needed ==> x in decoded
    ensures |AtLeast(decoded, needed[k - 1])| > reorder
  {
    var top := needed[k - 1..];
    forall x | x in top
      ensures x in AtLeast(decoded, needed[k - 1])
    {
      var i :| 0 <= i < |top| && top[i] == x;
      assert needed[k - 1 + i] in needed;
    }
    SliceIncreasing(needed, k - 1);
    CountIncreasing(top, AtLeast(decoded, needed[k - 1]));
  }

  lemma CallKeepsOrdered(s: Decoder, t: Decoder, needed: seq<int>, k: nat, start: int)
    requires Ordered(s, start) && StrictlyIncreasing(needed) && k <= |needed|
    requires forall x :: x in needed ==> x > s.last
    requires t.out == s.out + needed[..k] && NeededPocs(t.pics) == needed[k..]
    requires t.last == if k == 0 then s.last else needed[k - 1]
    ensures Ordered(t, start)
  {
    hide NeededPocs;
    JoinIncreasing(s.out, needed, k, s.last);
    if k > 0 {
      assert t.out[|t.out| - 1] == needed[k - 1];
    } else {
      assert t.out == s.out;
    }
  }

  lemma CallKeepsAccounted(s: Decoder, c: Call, t: Decoder, needed: seq<int>, k: nat, start: int)
    requires Accounted(s, start) && k <= |needed| && t.decoded == s.decoded + c.added
    requires t.out == s.out + needed[..k] && NeededPocs(t.pics) == needed[k..]
    requires |c.added| <= 1 && forall q :: q in c.added ==> q !in s.decoded && q > start
    requires forall x :: x in needed <==> x in NeededPocs(s.pics) || x in c.added
    ensures Accounted(t, start)
  {
    hide NeededPocs;
    SplitMembers(needed, k);
    DecodedDistinct(s.decoded, c.added);
    forall x
      ensures x in t.decoded <==> x in t.out || x in NeededPocs(t.pics)
    {
      assert x in t.out <==> x in s.out || x in needed[..k];
      assert x in t.decoded <==> x in s.decoded || x in c.added;
    }
  }

  lemma CallKeepsOvertaken(s: Decoder, t: Decoder, needed: seq<int>, k: nat, lim: Limits)
    requires Overtaken(s, lim) && StrictlyIncreasing(needed) && k == OutputCount(|needed|, lim)
    requires s.decoded <= t.decoded && forall x :: x in needed ==> x in t.decoded
    requires t.out == s.out + needed[..k] && t.last == if k == 0 then s.last else needed[k - 1]
    ensures Overtaken(t, lim)
  {
    if k > 0 {
      ManyAtLeast(t.decoded, needed, k, lim.numReorderPics);
    } else if s.out != [] {
      assert AtLeast(s.decoded, s.last) <= AtLeast(t.decoded, s.last);
      Subset(AtLeast(s.decoded, s.last), AtLeast(t.decoded, s.last));
    }
  }

  /** One call keeps the order. */
  lemma CallKeepsOrder(s: Decoder, c: Call, start: int, lim: Limits)
    requires InOrder(s, start, lim) && Legal(s, c, start, lim)
    ensures InOrder(After(s, c, lim), start, lim)
  {
    hide NeededPocs, Bump, Fullness, Ordered, Accounted, Overtaken;
    CallEffect(s, c, start, lim);
    RestIsAboveDisplayed(s, c, start, lim);
    var needed, t := NeededPocs(c.list), After(s, c, lim);
    var k := OutputCount(|needed|, lim);
    CallKeepsOrdered(s, t, needed, k, start);
    CallKeepsAccounted(s, c, t, needed, k, start);
    assert forall x :: x in needed ==> x in t.decoded by {
      AccountedNeeded(s, start);
    }
    CallKeepsOvertaken(s, t, needed, k, lim);
  }

  lemma AccountedNeeded(s: Decoder, start: int)
    requires Accounted(s, start)
    ensures forall x :: x in NeededPocs(s.pics) ==> x in s.decoded
  {
  }

  lemma SliceIncreasing(s: seq<int>, k: nat)
    requires StrictlyIncreasing(s) && k <= |s|
    ensures StrictlyIncreasing(s[k..]) && StrictlyIncreasing(s[..k])
    ensures k > 0 ==> forall x :: x in s[k..] ==> x > s[k - 1]
  {
  }

  lemma SplitMembers(s: seq<int>, k: nat)
    requires k <= |s|
    ensures forall x :: x in s <==> x in s[..k] || x in s[k..]
  {
    assert s == s[..k] + s[k..];
  }

  lemma JoinIncreasing(a: seq<int>, b: seq<int>, k: nat, last: int)
    requires StrictlyIncreasing(a) && StrictlyIncreasing(b) && k <= |b|
    requires (a != [] ==> last == a[|a| - 1]) && forall x :: x in b ==> x > last
    ensures StrictlyIncreasing(a + b[..k]) && StrictlyIncreasing(b[k..])
    ensures k > 0 ==> forall x :: x in b[k..] ==> x > b[k - 1]
  {
    var t := a + b[..k];
    forall i, j | 0 <= i < j < |t|
      ensures t[i] < t[j]
    {
      if i < |a| <= j {
        assert t[i] <= a[|a| - 1] && b[j - |a|] in b;
      }
    }
  }

  lemma DecodedDistinct(s: seq<int>, added: seq<int>)
    requires |added| <= 1 && forall q :: q in added ==> q !in s
    requires forall i, j :: 0 <= i < j < |s| ==> s[i] != s[j]
    ensures forall i, j :: 0 <= i < j < |s + added| ==> (s + added)[i] != (s + added)[j]
    ensures forall x :: x in s + added <==> x in s || x in added
  {
    if added != [] {
      assert added[0] in added;
    }
  }

  /** Bumping is order-correct over whole runs. */
  lemma {:induction false} RunInOrder(start: int, calls: seq<Call>, lim: Limits)
    requires LegalRun(start, calls, lim)
    ensures InOrder(Run(start, calls, lim), start, lim)
  {
    if calls != [] {
      var before := calls[..|calls| - 1];
      forall k | 0 <= k < |before|
        ensures Legal(Run(start, before[..k], lim), before[k], start, lim)
      {
        assert before[..k] == calls[..k];
      }
      RunInOrder(start, before, lim);
      CallKeepsOrder(Run(start, before, lim), calls[|calls| - 1], start, lim);
    }
  }

  /** The whole output of an epoch: what the calls wrote, then what the flush writes. */
  function EpochOutput(s: Decoder): seq<int> {
    s.out + NeededPocs(s.pics)
  }

  /** Every picture needed for output is written exactly once, in increasing POC order. */
  lemma EpochInOrder(start: int, calls: seq<Call>, lim: Limits)
    requires LegalRun(start, calls, lim)
    ensures var s := Run(start, calls, lim);
            && StrictlyIncreasing(EpochOutput(s))
            && multiset(EpochOutput(s)) == multiset(s.decoded)
  {
    RunInOrder(start, calls, lim);
    var s := Run(start, calls, lim);
    var needed := NeededPocs(s.pics);
    hide NeededPocs, Run;
    JoinIncreasing(s.out, needed, |needed|, s.last);
    assert needed[..|needed|] == needed;
    SameMultiset(EpochOutput(s), s.decoded);
  }

  lemma {:induction false} CountOnce(s: seq<int>, x: int)
    requires forall i, j :: 0 <= i < j < |s| ==> s[i] != s[j]
    ensures multiset(s)[x] == if x in s then 1 else 0
  {
    if s != [] {
      var init := s[..|s| - 1];
      assert s == init + [s[|s| - 1]];
      CountOnce(init, x);
    }
  }

  lemma SameMultiset(s: seq<int>, t: seq<int>)
    requires forall i, j :: 0 <= i < j < |s| ==> s[i] != s[j]
    requires forall i, j :: 0 <= i < j < |t| ==> t[i] != t[j]
    requires forall x :: x in s <==> x in t
    ensures multiset(s) == multiset(t)
  {
    forall x: int
      ensures multiset(s)[x] == multiset(t)[x]
    {
      CountOnce(s, x);
      CountOnce(t, x);
    }
  }

  /** The reordering limit cannot be dropped: with no reordering allowed, POC 4 then POC 2 makes
      the flush write 2 after 4. */
  lemma LateBeyondLimit()
    ensures var lim := Limits(0, 5);
            var first := Call([4], [Pic(4, true, true, true)]);
            var second := Call([2], [Pic(2, true, true, true), Pic(4, false, true, true)]);
            && Legal(Run(-1, [], lim), first, -1, lim)
            && !Legal(Run(-1, [first], lim), second, -1, lim)
            && EpochOutput(Run(-1, [first, second], lim)) == [4, 2]
  {
    var lim := Limits(0, 5);
    var four, two := Pic(4, true, true, true), Pic(2, true, true, true);
    var shown := Pic(4, false, true, true);
    var first, second := Call([4], [four]), Call([2], [two, shown]);
    hide After, Run, BumpFrom, NeededPocs, Fullness, CountWaiting;
    RunNone(-1, lim);
    RunSnoc(-1, [], first, lim);
    RunSnoc(-1, [first], second, lim);
    assert [] + [first] == [first] && [first] + [second] == [first, second];
    FirstCall(four, shown, lim);
    SecondCall(two, shown, lim);
    assert 4 in Above([4], 2);
  }

  lemma RunNone(start: int, lim: Limits)
    ensures Run(start, [], lim) == Decoder([], start, [], []) && NeededPocs([]) == []
  {
  }

  lemma RunSnoc(start: int, calls: seq<Call>, c: Call, lim: Limits)
    ensures Run(start, calls + [c], lim) == After(Run(start, calls, lim), c, lim)
  {
    assert (calls + [c])[..|calls|] == calls;
  }

  lemma FirstCall(four: Pic, shown: Pic, lim: Limits)
    requires four == Pic(4, true, true, true) && shown == Pic(4, false, true, true) && lim == Limits(0, 5)
    ensures NeededPocs([four]) == [4] && Fullness([four], -1) == 1
    ensures After(Decoder([], -1, [], []), Call([4], [four]), lim) == Decoder([shown], 4, [4], [4])
  {
    assert [four] == [four] + [] && [four][1..] == [];
    CountOne(four, -1);
    NeededCons(four, []);
    assert BumpFrom([], 4, 0, 1, lim) == Dpb([], 4, 0, 1, []);
  }

  lemma SecondCall(two: Pic, shown: Pic, lim: Limits)
    requires two == Pic(2, true, true, true) && shown == Pic(4, false, true, true) && lim == Limits(0, 5)
    ensures NeededPocs([two, shown]) == [2] && NeededPocs([shown]) == []
    ensures After(Decoder([shown], 4, [4], [4]), Call([2], [two, shown]), lim) == Decoder([two, shown], 4, [4], [4, 2])
  {
    assert [two, shown] == [two] + [shown] && [shown] == [shown] + [];
    CountConcat([two], [shown], 4);
    CountOne(two, 4);
    CountOne(shown, 4);
    NeededCons(two, [shown]);
    NeededCons(shown, []);
    assert [two, shown][1..] == [shown] && [shown][1..] == [];
    assert BumpFrom([shown], 4, 0, 2, lim) == Dpb([shown], 4, 0, 2, []);
  }

  /** Nor can the buffer's size: with one picture to reorder but one too many in the buffer, POC 4 is written
      before POC 2, though both calls would be legal with a larger buffer. */
  lemma FullBeyondLimit()
    ensures var lim, wide := Limits(1, 1), Limits(1, 2);
            var first := Call([4], [Pic(0, false, true, true), Pic(4, true, true, true)]);
            var second := Call([2], [Pic(2, true, true, true), Pic(4, false, true, true)]);
            && Legal(Run(0, [], lim), first, 0, wide) && Legal(Run(0, [first], lim), second, 0, wide)
            && !Legal(Run(0, [], lim), first, 0, lim)
            && EpochOutput(Run(0, [first, second], lim)) == [4, 2]
  {
    var lim := Limits(1, 1);
    var zero, four, two := Pic(0, false, true, true), Pic(4, true, true, true), Pic(2, true, true, true);
    var shown := Pic(4, false, true, true);
    var first, second := Call([4], [zero, four]), Call([2], [two, shown]);
    hide After, Run, BumpFrom, NeededPocs, Fullness, CountWaiting;
    RunNone(0, lim);
    RunSnoc(0, [], first, lim);
    RunSnoc(0, [first], second, lim);
    assert [] + [first] == [first] && [first] + [second] == [first, second];
    FullCall(zero, four, shown, lim);
    CallAfterFull(zero, two, shown, lim);
    assert Above([4], 2) == {4};
  }

  lemma FullCall(zero: Pic, four: Pic, shown: Pic, lim: Limits)
    requires zero == Pic(0, false, true, true) && four == Pic(4, true, true, true)
    requires shown == Pic(4, false, true, true) && lim == Limits(1, 1)
    ensures NeededPocs([zero, four]) == [4] && Fullness([zero, four], 0) == 2
    ensures After(Decoder([], 0, [], []), Call([4], [zero, four]), lim) == Decoder([zero, shown], 4, [4], [4])
  {
    assert [zero, four] == [zero] + [four] && [zero, four][1..] == [four] && [four][1..] == [] && [four] == [four] + [];
    CountConcat([zero], [four], 0);
    CountOne(zero, 0);
    CountOne(four, 0);
    NeededCons(zero, [four]);
    NeededCons(four, []);
    assert BumpFrom([], 4, 0, 2, lim) == Dpb([], 4, 0, 2, []);
    assert BumpFrom([four], 0, 1, 2, lim) == Dpb([shown], 4, 0, 2, [4]);
  }

  lemma CallAfterFull(zero: Pic, two: Pic, shown: Pic, lim: Limits)
    requires zero == Pic(0, false, true, true) && two == Pic(2, true, true, true)
    requires shown == Pic(4, false, true, true) && lim == Limits(1, 1)
    ensures NeededPocs([two, shown]) == [2] && NeededPocs([zero, shown]) == [] && Fullness([two, shown], 4) == 2
    ensures After(Decoder([zero, shown], 4, [4], [4]), Call([2], [two, shown]), lim)
         == Decoder([two, shown], 4, [4], [4, 2])
  {
    assert [two, shown] == [two] + [shown] && [shown] == [shown] + [] && [zero, shown] == [zero] + [shown];
    CountConcat([two], [shown], 4);
    CountOne(two, 4);
    CountOne(shown, 4);
    NeededCons(two, [shown]);
    NeededCons(zero, [shown]);
    NeededCons(shown, []);
    assert [two, shown][1..] == [shown] && [shown][1..] == [];
    assert BumpFrom([shown], 4, 0, 2, lim) == Dpb([shown], 4, 0, 2, []);
  }
}

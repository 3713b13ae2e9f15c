/** What a verified structure says of the GOPs after the check: each entry was seen with its references
    once, but whether later GOPs find theirs depends on what the entry coded before it leaves. */
module GopContinuation {
  import opened Arith
  import opened ReferenceLists
  import opened GopCheck
  import opened GopAvailability

  // ---- links of a run ----

  /** Every frame starts with the pictures the frame before it left. */
  lemma {:induction false} RunLink(g: Structure, list0: seq<Entry>, list1: seq<Entry>, isField: bool,
                                   frames: seq<Frame>, refs: seq<int>, numRefs: nat, p: nat)
    requires g.Valid(list0) && g.Valid(list1) && Run(g, list0, list1, isField, frames, refs, numRefs)
    requires p + 1 < |frames|
    ensures Leaves(g, list0, p, frames[p], frames[p + 1].refs, frames[p + 1].numRefs)
  {
    hide FrameOk, Leaves, InitialRefs;
    var last := |frames| - 1;
    var before := frames[..last];
    if p + 1 < last {
      RunLink(g, list0, list1, isField, before, frames[last].refs, frames[last].numRefs, p);
      assert before[p] == frames[p] && before[p + 1] == frames[p + 1];
    } else {
      var f := frames[last];
      assert Run(g, list0, list1, isField, before, f.refs, f.numRefs) && before != [];
      assert before[|before| - 1] == frames[p];
    }
  }

  // ---- the distance between two passes ----

  /** The entry coded before this one. */
  function Previous(g: Structure, cur: nat): (prev: nat)
    requires cur < g.size
    ensures prev < g.size
  {
    if cur == 0 then g.size - 1 else cur - 1
  }

  /** How far in output order the entry lies after the one coded before it. */
  function Distance(g: Structure, list: seq<Entry>, cur: nat): int
    requires g.Valid(list) && cur < g.size
  {
    list[cur].poc - list[Previous(g, cur)].poc + if cur == 0 then g.gm else 0
  }

  lemma NextPass(g: Structure, pass: nat)
    requires g.size > 0 && pass > 0
    ensures (pass - 1) % g.size == Previous(g, pass % g.size)
    ensures (pass - 1) / g.size == pass / g.size - if pass % g.size == 0 then 1 else 0
  {
    var q, r := pass / g.size, pass % g.size;
    assert pass == q * g.size + r;
    if r == 0 {
      assert (q - 1) * g.size == q * g.size - g.size;
      DivModUnique(q - 1, g.size - 1, g.size);
    } else {
      DivModUnique(q, r - 1, g.size);
    }
  }

  lemma PassDistance(g: Structure, list: seq<Entry>, pass: nat)
    requires g.Valid(list) && pass > 0
    ensures (pass - 1) % g.size == Previous(g, pass % g.size)
    ensures PassPoc(g, list, pass) - PassPoc(g, list, pass - 1) == Distance(g, list, pass % g.size)
  {
    NextPass(g, pass);
    var q := pass / g.size;
    assert (q - 1) * g.gm == q * g.gm - g.gm;
  }

  /** A later pass of the same entry lies no earlier in output order. */
  lemma LaterPass(g: Structure, list: seq<Entry>, p: nat, later: nat)
    requires g.Valid(list) && p <= later && p % g.size == later % g.size
    ensures PassPoc(g, list, p) <= PassPoc(g, list, later)
  {
    var a, b := p / g.size, later / g.size;
    assert p == a * g.size + p % g.size && later == b * g.size + later % g.size;
    MulLe(b + 1, a, g.size);
    assert (b + 1) * g.size == b * g.size + g.size;
    MulLe(a, b, g.gm);
  }

  // ---- what a verified structure guarantees later ----

  /** The pictures list 0 names are the entry coded before this one or named by its lists. */
  ghost predicate Inherits(g: Structure, list0: seq<Entry>, list1: seq<Entry>, cur: nat)
    requires g.Valid(list0) && g.Valid(list1) && cur < g.size
  {
    var prev, far := Previous(g, cur), Distance(g, list0, cur);
    forall d :: d in list0[cur].deltas ==> d == far || d - far in list0[prev].deltas || d - far in list1[prev].deltas
  }

  ghost predicate PresentAt(g: Structure, list0: seq<Entry>, frames: seq<Frame>, p: nat)
    requires g.Valid(list0) && p < |frames|
  {
    SeenAt(g, list0, frames, p % g.size, p)
  }

  /** Once an entry was seen with all its references, none of them lies before picture 0 again. */
  lemma NoneBefore(g: Structure, list0: seq<Entry>, frames: seq<Frame>, n: nat, p: nat)
    requires g.Valid(list0) && n <= |frames| && n <= p + 1
    requires forall k :: 0 <= k < g.size ==> Seen(g, list0, frames[..n], k)
    ensures !SomeBefore(list0[p % g.size].deltas, PassPoc(g, list0, p))
  {
    var k := p % g.size;
    assert Seen(g, list0, frames[..n], k);
    var q :| 0 <= q < n && SeenAt(g, list0, frames[..n], k, q);
    LaterPass(g, list0, q, p);
  }

  /** After a frame with its configured lists the next one has all its references exactly if its entry inherits them. */
  lemma PresentIsInherited(g: Structure, list0: seq<Entry>, list1: seq<Entry>, pass: nat, available: seq<int>)
    requires g.Valid(list0) && g.Valid(list1) && pass > 0
    requires !SomeBefore(list0[pass % g.size].deltas, PassPoc(g, list0, pass))
    requires var prev := (pass - 1) % g.size;
             available == NextReferences(list0[prev].deltas, list1[prev].deltas, PassPoc(g, list0, pass - 1))
    ensures AllPresent(list0[pass % g.size].deltas, PassPoc(g, list0, pass), available) <==>
            Inherits(g, list0, list1, pass % g.size)
  {
    var cur, poc, far := pass % g.size, PassPoc(g, list0, pass), Distance(g, list0, pass % g.size);
    var prev, was := Previous(g, cur), PassPoc(g, list0, pass - 1);
    PassDistance(g, list0, pass);
    hide PassPoc, NextReferences, Distance, Previous;
    forall d | d in list0[cur].deltas
      ensures poc - d in available <==>
        d == far || d - far in list0[prev].deltas || d - far in list1[prev].deltas
    {
      AvailableAfter(list0[prev].deltas, list1[prev].deltas, was, poc - d);
      assert was - (poc - d) == d - far;
    }
  }

  lemma PassAfter(g: Structure, list0: seq<Entry>, list1: seq<Entry>, pass: nat, f: Frame, next: Frame)
    requires g.Valid(list0) && g.Valid(list1) && pass > 0 && FrameOk(g, list0, list1, pass - 1, f)
    requires Present(g, list0, pass - 1, f.refs, f.numRefs)
    requires Leaves(g, list0, pass - 1, f, next.refs, next.numRefs)
    requires !SomeBefore(list0[pass % g.size].deltas, PassPoc(g, list0, pass))
    ensures next.numRefs <= |next.refs|
    ensures Present(g, list0, pass, next.refs, next.numRefs) <==> Inherits(g, list0, list1, pass % g.size)
  {
    hide PassPoc, NextReferences, Inherits, SomeBefore, AllPresent, Completed;
    PresentIsInherited(g, list0, list1, pass, next.refs[..next.numRefs]);
  }

  /** The step from one pass to the next. */
  lemma PresentAfter(g: Structure, list0: seq<Entry>, list1: seq<Entry>, isField: bool, frames: seq<Frame>,
                     refs: seq<int>, numRefs: nat, n: nat, p: nat)
    requires g.Valid(list0) && g.Valid(list1) && Run(g, list0, list1, isField, frames, refs, numRefs)
    requires n <= p < |frames| && p > 0
    requires forall k :: 0 <= k < g.size ==> Seen(g, list0, frames[..n], k)
    requires PresentAt(g, list0, frames, p - 1)
    ensures PresentAt(g, list0, frames, p) <==> Inherits(g, list0, list1, p % g.size)
  {
    hide Run, PassPoc, Inherits, Seen, SomeBefore, Present, FrameOk, Leaves;
    RunFrame(g, list0, list1, isField, frames, refs, numRefs, p - 1);
    RunLink(g, list0, list1, isField, frames, refs, numRefs, p - 1);
    NoneBefore(g, list0, frames, n, p);
    PassAfter(g, list0, list1, p, frames[p - 1], frames[p]);
  }

  /** The check ends with a frame that has all its references. */
  lemma LastIsPresent(g: Structure, list0: seq<Entry>, list1: seq<Entry>, isField: bool, frames: seq<Frame>,
                      refs: seq<int>, numRefs: nat, n: nat)
    requires g.Valid(list0) && g.Valid(list1) && Run(g, list0, list1, isField, frames, refs, numRefs)
    requires 0 < n <= |frames|
    requires forall k :: 0 <= k < g.size ==> Seen(g, list0, frames[..n], k)
    requires !Missing(g, list0, frames[..n], n - 1)
    ensures PresentAt(g, list0, frames, n - 1)
  {
    var p := n - 1;
    assert frames[..n][p] == frames[p];
    hide Run, PassPoc, Seen, SomeBefore, AllPresent, SomeMissing, Completed;
    RunFrame(g, list0, list1, isField, frames, refs, numRefs, p);
    NoneBefore(g, list0, frames, n, p);
    Availability(list0[p % g.size].deltas, PassPoc(g, list0, p), frames[p].refs[..frames[p].numRefs]);
  }

  lemma {:induction false} InheritedUpTo(g: Structure, list0: seq<Entry>, list1: seq<Entry>, isField: bool,
                                         frames: seq<Frame>, refs: seq<int>, numRefs: nat, n: nat, p: nat)
    requires g.Valid(list0) && g.Valid(list1) && Run(g, list0, list1, isField, frames, refs, numRefs)
    requires 0 < n <= p + 1 <= |frames| && PresentAt(g, list0, frames, n - 1)
    requires forall k :: 0 <= k < g.size ==> Seen(g, list0, frames[..n], k)
    requires forall k :: 0 <= k < g.size ==> Inherits(g, list0, list1, k)
    ensures PresentAt(g, list0, frames, p)
    decreases p
  {
    hide Run, PresentAt, Inherits, Seen;
    if p >= n {
      InheritedUpTo(g, list0, list1, isField, frames, refs, numRefs, n, p - 1);
      PresentAfter(g, list0, list1, isField, frames, refs, numRefs, n, p);
    }
  }

  /** Some pass of the next GOP codes this entry. */
  lemma PassOf(g: Structure, n: nat, k: nat) returns (p: nat)
    requires k < g.size
    ensures n <= p < n + g.size && p % g.size == k
  {
    var q, r := n / g.size, n % g.size;
    assert n == q * g.size + r;
    if r <= k {
      p := q * g.size + k;
      DivModUnique(q, k, g.size);
    } else {
      assert (q + 1) * g.size == q * g.size + g.size;
      p := (q + 1) * g.size + k;
      DivModUnique(q + 1, k, g.size);
    }
  }

  /** Let n passes verify the structure. Every later pass has all its references exactly if every entry
      inherits its own from the entry coded before it. */
  lemma VerifiedContinues(g: Structure, list0: seq<Entry>, list1: seq<Entry>, isField: bool, frames: seq<Frame>,
                          refs: seq<int>, numRefs: nat, n: nat, extra: nat, was: seq<int>, count: nat)
    requires g.Valid(list0) && g.Valid(list1) && Run(g, list0, list1, isField, frames, refs, numRefs)
    requires n + g.size <= |frames| && Explained(g, list0, list1, frames[..n], extra, Verified, was, count)
    ensures (forall p: nat :: n <= p < |frames| ==> PresentAt(g, list0, frames, p)) <==>
            (forall k: nat :: k < g.size ==> Inherits(g, list0, list1, k))
  {
    hide Run, PresentAt, Inherits, Missing;
    assert Seen(g, list0, frames[..n], 0);
    assert n > 0;
    hide Seen;
    LastIsPresent(g, list0, list1, isField, frames, refs, numRefs, n);
    if forall p: nat :: n <= p < |frames| ==> PresentAt(g, list0, frames, p) {
      forall k: nat | k < g.size
        ensures Inherits(g, list0, list1, k)
      {
        var p := PassOf(g, n, k);
        PresentAfter(g, list0, list1, isField, frames, refs, numRefs, n, p);
      }
    }
    if forall k: nat :: k < g.size ==> Inherits(g, list0, list1, k) {
      forall p: nat | n <= p < |frames|
        ensures PresentAt(g, list0, frames, p)
      {
        InheritedUpTo(g, list0, list1, isField, frames, refs, numRefs, n, p);
      }
    }
  }

  // ---- a verified structure that fails later ----

  /** POC 2 refers to the picture one GOP before, POC 1 to none. */
  ghost predicate Forgetful(list0: seq<Entry>, list1: seq<Entry>) {
    && 2 <= |list0| && 2 <= |list1|
    && list0[0].poc == list1[0].poc == 2 && list0[0].deltas == [2] && list1[0].deltas == []
    && list0[1].poc == list1[1].poc == 1 && list0[1].deltas == [] && list1[1].deltas == []
  }

  /** Both entries are seen in the first GOP, so the structure is accepted. But POC 1 leaves only itself, so
      POC 4 does not find POC 2. */
  lemma VerifiedThenMissing(list0: seq<Entry>, list1: seq<Entry>)
    requires Forgetful(list0, list1)
    ensures var g := Structure(2, 2);
            && Accepted(g, list0, list1, false) && Reached(g, list0, list1, 2, [1])
            && SomeMissing(list0[0].deltas, PassPoc(g, list0, 2), [1]) && !Inherits(g, list0, list1, 0)
  {
    var g := Structure(2, 2);
    assert 2 in list0[0].deltas && PassPoc(g, list0, 2) == 4;
    assert NextReferences([2], [], 2) == [0, 2] && NextReferences([], [], 1) == [1];
    assert AllPresent([2], 2, [0]) && AllPresent([], 1, [0, 2]);
    hide NextReferences, AllPresent, Reached, Accepted;
    ReachedFirst(g, list0, list1);
    FirstGopPass(list0, list1, 2, 0, 2, [2], [0], [0, 2]);
    FirstGopPass(list0, list1, 2, 1, 1, [], [0, 2], [1]);
    ReachedAccepted(g, list0, list1, 2, [1]);
  }
}

/** Reference picture lists while the GOP structure is checked: which references exist, which
    pictures replace the missing ones, and which pictures are kept for the next frame. */
module ReferenceLists {
  import opened Arith

  const MAX_NUM_REF_PICS := 29

  /** An entry of the encoder's reference picture list; the valid prefix of its delta array. */
  datatype Entry = Entry(poc: int, temporalId: int, refPic: bool, active: int, deltas: seq<int>)

  /** The frame a pass looks at, in coding order: lists of G entries, GOPs gm pictures apart. */
  datatype Structure = Structure(size: nat, gm: nat) {
    ghost predicate Valid(list: seq<Entry>) {
      0 < size <= |list| && gm > 0
    }
  }

  /** Picture order count of the frame coded in a pass. */
  function PassPoc(g: Structure, list: seq<Entry>, pass: nat): int
    requires g.Valid(list)
  {
    (pass / g.size) * g.gm + list[pass % g.size].poc
  }

  // ---- references that exist ----

  /** The references at or after picture 0. */
  function Kept(deltas: seq<int>, poc: int): (kept: seq<int>)
    ensures forall d :: d in kept <==> d in deltas && poc - d >= 0
    ensures |kept| <= |deltas|
  {
    if deltas == [] then []
    else (if poc - deltas[0] >= 0 then [deltas[0]] else []) + Kept(deltas[1..], poc)
  }

  lemma {:induction false} KeptAppend(deltas: seq<int>, d: int, poc: int)
    ensures Kept(deltas + [d], poc) == Kept(deltas, poc) + if poc - d >= 0 then [d] else []
  {
    if deltas != [] {
      assert (deltas + [d])[1..] == deltas[1..] + [d];
      KeptAppend(deltas[1..], d, poc);
    }
  }

  method KeepReferences(deltas: seq<int>, poc: int) returns (kept: seq<int>)
    ensures kept == Kept(deltas, poc)
  {
    kept := [];
    for i := 0 to |deltas|
      invariant kept == Kept(deltas[..i], poc)
    {
      KeptAppend(deltas[..i], deltas[i], poc);
      assert deltas[..i + 1] == deltas[..i] + [deltas[i]];
      if poc - deltas[i] >= 0 {
        kept := kept + [deltas[i]];
      }
    }
    assert deltas[..|deltas|] == deltas;
  }

  ghost predicate Distinct(s: seq<int>) {
    forall i, j :: 0 <= i < j < |s| ==> s[i] != s[j]
  }

  /** Earlier pictures come in order of distance. */
  ghost predicate PositivesAscend(s: seq<int>) {
    forall i, j :: 0 <= i < j < |s| && s[i] > 0 && s[j] > 0 ==> s[i] < s[j]
  }

  lemma {:induction false} KeptDistinct(deltas: seq<int>, poc: int)
    requires Distinct(deltas)
    ensures Distinct(Kept(deltas, poc))
  {
    if deltas != [] {
      TailOrder(deltas);
      KeptDistinct(deltas[1..], poc);
      assert deltas[0] !in deltas[1..];
    }
  }

  lemma {:induction false} KeptAscends(deltas: seq<int>, poc: int)
    requires PositivesAscend(deltas)
    ensures PositivesAscend(Kept(deltas, poc))
  {
    if deltas != [] {
      TailOrder(deltas);
      KeptAscends(deltas[1..], poc);
      var tail := Kept(deltas[1..], poc);
      forall x | x in tail && x > 0 && deltas[0] > 0
        ensures deltas[0] < x
      {
        assert x in deltas[1..];
      }
      AscendsFrom(deltas[0], tail);
    }
  }

  lemma AscendsFrom(d: int, s: seq<int>)
    requires PositivesAscend(s) && forall x :: x in s && x > 0 && d > 0 ==> d < x
    ensures PositivesAscend([d] + s)
  {
    var t := [d] + s;
    forall i, j | 0 <= i < j < |t| && t[i] > 0 && t[j] > 0
      ensures t[i] < t[j]
    {
      assert t[j] == s[j - 1] && s[j - 1] in s;
    }
  }

  lemma TailOrder(s: seq<int>)
    requires s != []
    ensures Distinct(s) ==> Distinct(s[1..]) && s[0] !in s[1..]
    ensures PositivesAscend(s) ==> PositivesAscend(s[1..]) && forall x :: x in s[1..] && x > 0 && s[0] > 0 ==> s[0] < x
  {
    assert forall k :: 0 <= k < |s| - 1 ==> s[1..][k] == s[k + 1];
  }

  // ---- inserting a replacement ----

  /** Before the first reference further away, for an earlier picture; at the end otherwise. */
  function InsertPoint(s: seq<int>, d: int): (p: nat)
    ensures p <= |s|
    ensures d > 0 ==> (forall i :: 0 <= i < p ==> s[i] <= d) && (p < |s| ==> s[p] > d)
    ensures d <= 0 ==> p == |s|
  {
    if s == [] then 0 else if s[0] > d && d > 0 then 0 else 1 + InsertPoint(s[1..], d)
  }

  function Inserted(s: seq<int>, d: int): (r: seq<int>)
    ensures |r| == |s| + 1 && multiset(r) == multiset(s) + multiset{d}
  {
    var p := InsertPoint(s, d);
    assert s == s[..p] + s[p..];
    s[..p] + [d] + s[p..]
  }

  lemma InsertedShape(s: seq<int>, d: int)
    ensures var p, r := InsertPoint(s, d), Inserted(s, d);
            r[p] == d && (forall k :: 0 <= k < p ==> r[k] == s[k]) && (forall k :: p < k < |r| ==> r[k] == s[k - 1])
  {
  }

  lemma InsertedMembers(s: seq<int>, d: int)
    ensures forall x :: x in Inserted(s, d) <==> x in s || x == d
  {
    var r := Inserted(s, d);
    hide Inserted;
    assert forall x :: x in r <==> x in multiset(r);
    assert forall x :: x in s <==> x in multiset(s);
  }

  lemma InsertedDistinct(s: seq<int>, d: int)
    requires d !in s && Distinct(s)
    ensures Distinct(Inserted(s, d))
  {
    InsertedShape(s, d);
    var p, r := InsertPoint(s, d), Inserted(s, d);
    hide Inserted, InsertPoint;
    forall i, j | 0 <= i < j < |r|
      ensures r[i] != r[j]
    {
      assert i < p ==> r[i] in s;
      assert j > p ==> r[j] in s;
    }
  }

  lemma InsertedAscends(s: seq<int>, d: int)
    requires d !in s && PositivesAscend(s)
    ensures PositivesAscend(Inserted(s, d))
  {
    InsertedShape(s, d);
    var p, r := InsertPoint(s, d), Inserted(s, d);
    PointMeans(s, d);
    hide Inserted, InsertPoint;
    forall i, j | 0 <= i < j < |r| && r[i] > 0 && r[j] > 0
      ensures r[i] < r[j]
    {
      assert i < p ==> r[i] == s[i] && s[i] in s;
      assert j > p ==> r[j] == s[j - 1];
    }
  }

  /** For an earlier picture, what lies before the point is nearer and what lies behind it further away. */
  lemma PointMeans(s: seq<int>, d: int)
    requires d !in s && PositivesAscend(s)
    ensures var p := InsertPoint(s, d);
            && (d > 0 ==> forall i :: 0 <= i < p ==> s[i] < d)
            && (d > 0 ==> forall i :: p <= i < |s| && s[i] > 0 ==> s[i] > d)
            && (d <= 0 ==> p == |s|)
  {
    hide InsertPoint;
    forall i | 0 <= i < InsertPoint(s, d)
      ensures d > 0 ==> s[i] < d
    {
      assert s[i] in s;
    }
  }

  /** The search for the insertion point. */
  method FindPoint(s: seq<int>, d: int) returns (p: nat)
    ensures p == InsertPoint(s, d)
  {
    p := |s|;
    for j := 0 to |s|
      invariant p == |s| && forall k :: 0 <= k < j ==> !(s[k] > d && d > 0)
    {
      if s[j] > d && d > 0 {
        p := j;
        return;
      }
    }
  }

  /** The shifting loop, on a list with one free slot. */
  method InsertDelta(s: seq<int>, free: int, d: int) returns (r: seq<int>)
    ensures r == Inserted(s, d)
  {
    var n := |s|;
    var insertPoint := FindPoint(s, d);
    hide InsertPoint;
    var prev := d;
    r := s + [free];
    for j := insertPoint to n + 1
      invariant |r| == n + 1
      invariant forall k :: 0 <= k < insertPoint ==> r[k] == s[k]
      invariant insertPoint < j ==> r[insertPoint] == d
      invariant forall k :: insertPoint < k < j ==> r[k] == s[k - 1]
      invariant forall k :: j <= k < n ==> r[k] == s[k]
      invariant j <= n ==> prev == if j == insertPoint then d else s[j - 1]
    {
      var newPrev := r[j];
      r := r[j := prev];
      prev := newPrev;
    }
  }

  // ---- replacing missing references ----

  /** A list being completed and the entries marked as referenced, or an index past an array's end. */
  datatype Search = Found(deltas: seq<int>, marked: set<nat>) | OutOfBounds

  /** One step back in coding order: the picture of an earlier pass joins the list if it is not above the
      frame's temporal layer, not there yet, and found in as many places of the array as both lists have
      references, whether those places are in use or not. */
  function Consider(g: Structure, list: seq<Entry>, cur: nat, poc: int, refs: seq<int>, other: nat, f: Search,
                    pass: nat): Search
    requires g.Valid(list) && cur < g.size && f.Found?
  {
    var e, offPoc := list[pass % g.size], PassPoc(g, list, pass);
    if offPoc < 0 || e.temporalId > list[cur].temporalId then f
    else if |f.deltas| + other > |refs| then OutOfBounds
    else if offPoc !in refs[..|f.deltas| + other] || poc - offPoc in f.deltas then f
    else if |f.deltas| >= MAX_NUM_REF_PICS then OutOfBounds
    else Found(Inserted(f.deltas, poc - offPoc),
               if e.temporalId == list[cur].temporalId then f.marked + {pass % g.size} else f.marked)
  }

  /** The steps from `back` passes before this one down to the first, until enough references are active. */
  function Fill(g: Structure, list: seq<Entry>, cur: nat, poc: int, refs: seq<int>, other: nat, f: Search,
                pass: nat): Search
    requires g.Valid(list) && cur < g.size
    decreases pass
  {
    if f.OutOfBounds? || pass == 0 then f
    else
      var next := Consider(g, list, cur, poc, refs, other, f, pass - 1);
      if next.OutOfBounds? || |next.deltas| >= list[cur].active then next
      else Fill(g, list, cur, poc, refs, other, next, pass - 1)
  }

  /** A replacement comes from an earlier pass, not above the layer, from picture 0 on, and is held by the array,
      in a place in use or behind those. */
  ghost predicate Replacement(g: Structure, list: seq<Entry>, cur: nat, poc: int, refs: seq<int>, pass: nat, d: int)
    requires g.Valid(list) && cur < g.size
  {
    poc - d >= 0 && poc - d in refs && CodedBefore(g, list, cur, poc - d, pass)
  }

  ghost predicate CodedBefore(g: Structure, list: seq<Entry>, cur: nat, offPoc: int, pass: nat)
    requires g.Valid(list) && cur < g.size
  {
    exists o: nat :: o < pass && Source(g, list, cur, offPoc, o)
  }

  ghost predicate Source(g: Structure, list: seq<Entry>, cur: nat, offPoc: int, o: nat)
    requires g.Valid(list) && cur < g.size
  {
    PassPoc(g, list, o) == offPoc && list[o % g.size].temporalId <= list[cur].temporalId
  }

  /** The completed list keeps what was there and its order, adds no duplicate, and adds only replacements. */
  ghost predicate Completes(g: Structure, list: seq<Entry>, cur: nat, poc: int, refs: seq<int>, pass: nat,
                            before: seq<int>, after: seq<int>)
    requires g.Valid(list) && cur < g.size
  {
    && (Distinct(before) ==> Distinct(after))
    && (PositivesAscend(before) ==> PositivesAscend(after))
    && (forall d :: d in before ==> d in after)
    && (forall d :: d in after ==> d in before || Replacement(g, list, cur, poc, refs, pass, d))
    && (|after| <= |before| || |after| <= MAX_NUM_REF_PICS)
  }

  lemma ConsiderCompletes(g: Structure, list: seq<Entry>, cur: nat, poc: int, refs: seq<int>, other: nat, f: Search,
                          pass: nat, o: nat)
    requires g.Valid(list) && cur < g.size && f.Found? && o < pass
    ensures var next := Consider(g, list, cur, poc, refs, other, f, o);
            next.Found? ==> Completes(g, list, cur, poc, refs, pass, f.deltas, next.deltas)
  {
    hide Inserted, Distinct, PositivesAscend, PassPoc;
    var next := Consider(g, list, cur, poc, refs, other, f, o);
    if next.Found? && next.deltas != f.deltas {
      var d := poc - PassPoc(g, list, o);
      assert Source(g, list, cur, poc - d, o);
      InsertedMembers(f.deltas, d);
      if Distinct(f.deltas) {
        InsertedDistinct(f.deltas, d);
      }
      if PositivesAscend(f.deltas) {
        InsertedAscends(f.deltas, d);
      }
    }
  }

  lemma CompletesTrans(g: Structure, list: seq<Entry>, cur: nat, poc: int, refs: seq<int>, pass: nat,
                       a: seq<int>, b: seq<int>, c: seq<int>)
    requires g.Valid(list) && cur < g.size
    requires Completes(g, list, cur, poc, refs, pass, a, b) && Completes(g, list, cur, poc, refs, pass, b, c)
    ensures Completes(g, list, cur, poc, refs, pass, a, c)
  {
    hide Replacement, Distinct, PositivesAscend;
  }

  lemma CompletesSelf(g: Structure, list: seq<Entry>, cur: nat, poc: int, refs: seq<int>, pass: nat, a: seq<int>)
    requires g.Valid(list) && cur < g.size
    ensures Completes(g, list, cur, poc, refs, pass, a, a)
  {
  }

  lemma {:induction false} FillCompletes(g: Structure, list: seq<Entry>, cur: nat, poc: int, refs: seq<int>, other: nat,
                                         f: Search, pass: nat, left: nat)
    requires g.Valid(list) && cur < g.size && f.Found? && left <= pass
    ensures var r := Fill(g, list, cur, poc, refs, other, f, left);
            r.Found? ==> Completes(g, list, cur, poc, refs, pass, f.deltas, r.deltas)
    decreases left
  {
    hide Consider, Completes;
    if left == 0 {
      CompletesSelf(g, list, cur, poc, refs, pass, f.deltas);
    } else {
      var next := Consider(g, list, cur, poc, refs, other, f, left - 1);
      ConsiderCompletes(g, list, cur, poc, refs, other, f, pass, left - 1);
      if next.Found? {
        FillCompletes(g, list, cur, poc, refs, other, next, pass, left - 1);
        var r := Fill(g, list, cur, poc, refs, other, next, left - 1);
        if r.Found? {
          CompletesTrans(g, list, cur, poc, refs, pass, f.deltas, next.deltas, r.deltas);
        }
      }
    }
  }

  /** A pass in the frame's own layer whose picture joined the list. */
  ghost predicate JoinedFrom(g: Structure, list: seq<Entry>, cur: nat, poc: int, before: seq<int>, after: seq<int>,
                             o: nat)
    requires g.Valid(list) && cur < g.size
  {
    && list[o % g.size].temporalId == list[cur].temporalId
    && poc - PassPoc(g, list, o) in after && poc - PassPoc(g, list, o) !in before
  }

  /** An entry is newly marked only for such a pass. */
  ghost predicate MarkedForJoining(g: Structure, list: seq<Entry>, cur: nat, poc: int, pass: nat, before: seq<int>,
                                   after: seq<int>, k: nat)
    requires g.Valid(list) && cur < g.size
  {
    exists o: nat :: o < pass && o % g.size == k && JoinedFrom(g, list, cur, poc, before, after, o)
  }

  /** A picture joins the list from an earlier pass, whose entry is marked if it is in the frame's own layer. */
  ghost predicate JoinedAndMarked(g: Structure, list: seq<Entry>, cur: nat, poc: int, pass: nat, marked: set<nat>,
                                  d: int)
    requires g.Valid(list) && cur < g.size
  {
    exists o: nat :: o < pass && JoinsAs(g, list, cur, poc, marked, d, o)
  }

  ghost predicate JoinsAs(g: Structure, list: seq<Entry>, cur: nat, poc: int, marked: set<nat>, d: int, o: nat)
    requires g.Valid(list) && cur < g.size
  {
    PassPoc(g, list, o) == poc - d && (list[o % g.size].temporalId == list[cur].temporalId ==> o % g.size in marked)
  }

  /** Which entries the search marks. */
  ghost predicate MarksJoined(g: Structure, list: seq<Entry>, cur: nat, poc: int, pass: nat, before: Search,
                              after: Search)
    requires g.Valid(list) && cur < g.size && before.Found? && after.Found?
  {
    && before.marked <= after.marked && (forall d :: d in before.deltas ==> d in after.deltas)
    && (forall k :: k in after.marked && k !in before.marked ==>
          MarkedForJoining(g, list, cur, poc, pass, before.deltas, after.deltas, k))
    && (forall d :: d in after.deltas && d !in before.deltas ==>
          JoinedAndMarked(g, list, cur, poc, pass, after.marked, d))
  }

  lemma ConsiderMarks(g: Structure, list: seq<Entry>, cur: nat, poc: int, refs: seq<int>, other: nat, f: Search,
                      pass: nat, o: nat)
    requires g.Valid(list) && cur < g.size && f.Found? && o < pass
    ensures var next := Consider(g, list, cur, poc, refs, other, f, o);
            next.Found? ==> MarksJoined(g, list, cur, poc, pass, f, next)
  {
    hide Inserted, PassPoc;
    var next := Consider(g, list, cur, poc, refs, other, f, o);
    var d := poc - PassPoc(g, list, o);
    InsertedMembers(f.deltas, d);
    if next.Found? && next != f {
      assert JoinsAs(g, list, cur, poc, next.marked, d, o);
      if list[o % g.size].temporalId == list[cur].temporalId {
        assert JoinedFrom(g, list, cur, poc, f.deltas, next.deltas, o);
      }
    }
  }

  lemma MarksTrans(g: Structure, list: seq<Entry>, cur: nat, poc: int, pass: nat, a: Search, b: Search, c: Search)
    requires g.Valid(list) && cur < g.size && a.Found? && b.Found? && c.Found?
    requires MarksJoined(g, list, cur, poc, pass, a, b) && MarksJoined(g, list, cur, poc, pass, b, c)
    ensures MarksJoined(g, list, cur, poc, pass, a, c)
  {
    hide PassPoc;
    forall k | k in c.marked && k !in a.marked
      ensures MarkedForJoining(g, list, cur, poc, pass, a.deltas, c.deltas, k)
    {
      if k in b.marked {
        var o: nat :| o < pass && o % g.size == k && JoinedFrom(g, list, cur, poc, a.deltas, b.deltas, o);
        assert JoinedFrom(g, list, cur, poc, a.deltas, c.deltas, o);
      } else {
        var o: nat :| o < pass && o % g.size == k && JoinedFrom(g, list, cur, poc, b.deltas, c.deltas, o);
        assert JoinedFrom(g, list, cur, poc, a.deltas, c.deltas, o);
      }
    }
    forall d | d in c.deltas && d !in a.deltas
      ensures JoinedAndMarked(g, list, cur, poc, pass, c.marked, d)
    {
      if d in b.deltas {
        var o: nat :| o < pass && JoinsAs(g, list, cur, poc, b.marked, d, o);
        assert JoinsAs(g, list, cur, poc, c.marked, d, o);
      }
    }
  }

  /** The search marks the entries of the pictures that joined in the frame's own layer, and no others. */
  lemma {:induction false} FillMarks(g: Structure, list: seq<Entry>, cur: nat, poc: int, refs: seq<int>, other: nat,
                                     f: Search, pass: nat, left: nat)
    requires g.Valid(list) && cur < g.size && f.Found? && left <= pass
    ensures var r := Fill(g, list, cur, poc, refs, other, f, left);
            r.Found? ==> MarksJoined(g, list, cur, poc, pass, f, r)
    decreases left
  {
    hide Consider, MarksJoined;
    if left == 0 {
      MarksSelf(g, list, cur, poc, pass, f);
    } else {
      var next := Consider(g, list, cur, poc, refs, other, f, left - 1);
      ConsiderMarks(g, list, cur, poc, refs, other, f, pass, left - 1);
      if next.Found? {
        FillMarks(g, list, cur, poc, refs, other, next, pass, left - 1);
        var r := Fill(g, list, cur, poc, refs, other, next, left - 1);
        if r.Found? {
          MarksTrans(g, list, cur, poc, pass, f, next, r);
        }
      }
    }
  }

  lemma MarksSelf(g: Structure, list: seq<Entry>, cur: nat, poc: int, pass: nat, f: Search)
    requires g.Valid(list) && cur < g.size && f.Found?
    ensures MarksJoined(g, list, cur, poc, pass, f, f)
  {
  }

  /** A picture of an earlier pass that may join: from picture 0 on, not above the layer, and held by a place among
      as many as both lists have references at the start. */
  ghost predicate Candidate(g: Structure, list: seq<Entry>, cur: nat, refs: seq<int>, places: nat, o: nat)
    requires g.Valid(list) && cur < g.size && places <= |refs|
  {
    && PassPoc(g, list, o) >= 0 && PassPoc(g, list, o) in refs[..places]
    && list[o % g.size].temporalId <= list[cur].temporalId
  }

  lemma ConsiderTakes(g: Structure, list: seq<Entry>, cur: nat, poc: int, refs: seq<int>, other: nat, f: Search,
                      places: nat, o: nat)
    requires g.Valid(list) && cur < g.size && f.Found? && places <= |f.deltas| + other && places <= |refs|
    ensures var next := Consider(g, list, cur, poc, refs, other, f, o);
            next.Found? ==>
              && |f.deltas| <= |next.deltas| <= |f.deltas| + 1 && (forall d :: d in f.deltas ==> d in next.deltas)
              && (Candidate(g, list, cur, refs, places, o) ==> poc - PassPoc(g, list, o) in next.deltas)
  {
    hide Inserted, PassPoc;
    InsertedMembers(f.deltas, poc - PassPoc(g, list, o));
  }

  /** What the search leaves: at most one reference more once there are enough, and if there are too few every
      candidate of the passes searched has joined. */
  ghost predicate Filled(g: Structure, list: seq<Entry>, cur: nat, poc: int, refs: seq<int>, places: nat, left: nat,
                         before: seq<int>, after: seq<int>)
    requires g.Valid(list) && cur < g.size && places <= |refs|
  {
    && (|after| <= |before| + 1 || |after| <= list[cur].active)
    && (|after| < list[cur].active ==>
          forall o: nat :: o < left && Candidate(g, list, cur, refs, places, o) ==> poc - PassPoc(g, list, o) in after)
  }

  lemma {:induction false} FillTakes(g: Structure, list: seq<Entry>, cur: nat, poc: int, refs: seq<int>, other: nat,
                                     f: Search, places: nat, left: nat)
    requires g.Valid(list) && cur < g.size && f.Found? && places <= |f.deltas| + other && places <= |refs|
    ensures var r := Fill(g, list, cur, poc, refs, other, f, left);
            r.Found? ==>
              && |f.deltas| <= |r.deltas| && (forall d :: d in f.deltas ==> d in r.deltas)
              && Filled(g, list, cur, poc, refs, places, left, f.deltas, r.deltas)
    decreases left
  {
    hide Consider, Candidate, PassPoc;
    if left > 0 {
      var next := Consider(g, list, cur, poc, refs, other, f, left - 1);
      ConsiderTakes(g, list, cur, poc, refs, other, f, places, left - 1);
      if next.Found? && |next.deltas| < list[cur].active {
        FillTakes(g, list, cur, poc, refs, other, next, places, left - 1);
      }
    }
  }

  /** The marked entries carry the flag; nothing else differs. */
  ghost predicate MarkedBy(list: seq<Entry>, out: seq<Entry>, marked: set<nat>) {
    |out| == |list| && forall k :: 0 <= k < |list| ==> out[k] == list[k].(refPic := list[k].refPic || k in marked)
  }

  lemma MarkOne(list: seq<Entry>, out: seq<Entry>, marked: set<nat>, k: nat)
    requires MarkedBy(list, out, marked) && k < |list|
    ensures MarkedBy(list, out[k := out[k].(refPic := true)], marked + {k})
  {
  }

  lemma StructureSizes(g: Structure, list: seq<Entry>)
    requires g.Valid(list)
    ensures 0 < g.size <= |list| && g.gm > 0
  {
  }

  lemma NothingMarked(list: seq<Entry>)
    ensures MarkedBy(list, list, {})
  {
  }

  /** The loop over the passes before this one. */
  method FillReferences(g: Structure, list: seq<Entry>, cur: nat, poc: int, refs: seq<int>, other: nat, kept: seq<int>,
                        pass: nat)
    returns (r: Search, out: seq<Entry>)
    requires g.Valid(list) && cur < g.size
    ensures r == Fill(g, list, cur, poc, refs, other, Found(kept, {}), pass)
    ensures r.Found? ==> MarkedBy(list, out, r.marked)
    ensures r.Found? ==> MarksJoined(g, list, cur, poc, pass, Found(kept, {}), r)
    ensures r.Found? && |kept| + other <= |refs| ==>
      Filled(g, list, cur, poc, refs, |kept| + other, pass, kept, r.deltas)
  {
    hide *;
    StructureSizes(g, list);
    FillMarks(g, list, cur, poc, refs, other, Found(kept, {}), pass, pass);
    if |kept| + other <= |refs| {
      FillTakes(g, list, cur, poc, refs, other, Found(kept, {}), |kept| + other, pass);
    }
    out, r := list, Found(kept, {});
    NothingMarked(list);
    var back: nat := 0;
    while back < pass
      invariant back <= pass && r.Found? && MarkedBy(list, out, r.marked)
      invariant Fill(g, list, cur, poc, refs, other, r, pass - back)
             == Fill(g, list, cur, poc, refs, other, Found(kept, {}), pass)
    {
      back := back + 1;
      var o := pass - back;
      FillStep(g, list, cur, poc, refs, other, r, o);
      var next, mark := ConsiderPicture(g, list, cur, poc, refs, other, r, o);
      if mark {
        MarkedLength(list, out, r.marked);
        MarkOne(list, out, r.marked, o % g.size);
        out := out[o % g.size := out[o % g.size].(refPic := true)];
      }
      r := next;
      if r.OutOfBounds? || |r.deltas| >= list[cur].active {
        return;
      }
    }
    FillNone(g, list, cur, poc, refs, other, r);
  }

  lemma FillStep(g: Structure, list: seq<Entry>, cur: nat, poc: int, refs: seq<int>, other: nat, f: Search, pass: nat)
    requires g.Valid(list) && cur < g.size && f.Found?
    ensures var next := Consider(g, list, cur, poc, refs, other, f, pass);
            var stop := next.OutOfBounds? || |next.deltas| >= list[cur].active;
            var rest := if stop then next else Fill(g, list, cur, poc, refs, other, next, pass);
            Fill(g, list, cur, poc, refs, other, f, pass + 1) == rest
  {
  }

  lemma FillNone(g: Structure, list: seq<Entry>, cur: nat, poc: int, refs: seq<int>, other: nat, f: Search)
    requires g.Valid(list) && cur < g.size
    ensures Fill(g, list, cur, poc, refs, other, f, 0) == f
  {
  }

  /** The body of that loop; `mark` tells whether the earlier entry is flagged as referenced. */
  method ConsiderPicture(g: Structure, list: seq<Entry>, cur: nat, poc: int, refs: seq<int>, other: nat, f: Search,
                         o: nat)
    returns (next: Search, mark: bool)
    requires g.Valid(list) && cur < g.size && f.Found?
    ensures next == Consider(g, list, cur, poc, refs, other, f, o)
    ensures next.Found? ==> next.marked == if mark then f.marked + {o % g.size} else f.marked
  {
    hide PassPoc, Inserted;
    next, mark := f, false;
    var e, offPoc := list[o % g.size], PassPoc(g, list, o);
    if offPoc >= 0 && e.temporalId <= list[cur].temporalId {
      var n := |f.deltas| + other;
      if n > |refs| {
        next := OutOfBounds;
        return;
      }
      var newRef := false;
      for i := 0 to n
        invariant newRef <==> offPoc in refs[..i]
      {
        if refs[i] == offPoc {
          newRef := true;
        }
      }
      var held := newRef;
      for i := 0 to |f.deltas|
        invariant newRef <==> held && poc - offPoc !in f.deltas[..i]
      {
        if f.deltas[i] == poc - offPoc {
          newRef := false;
        }
      }
      assert f.deltas[..|f.deltas|] == f.deltas;
      if newRef {
        if |f.deltas| >= MAX_NUM_REF_PICS {
          next := OutOfBounds;
          return;
        }
        mark := e.temporalId == list[cur].temporalId;
        var d := InsertDelta(f.deltas, 0, poc - offPoc);
        next := Found(d, if mark then f.marked + {o % g.size} else f.marked);
      }
    }
  }

  // ---- pictures kept for the next frame ----

  function Pictures(deltas: seq<int>, poc: int): (r: seq<int>)
    ensures |r| == |deltas|
  {
    if deltas == [] then [] else [poc - deltas[0]] + Pictures(deltas[1..], poc)
  }

  /** The pictures of a list that are not there yet, each once. */
  function AddNew(refs: seq<int>, deltas: seq<int>, poc: int): seq<int>
    decreases deltas
  {
    if deltas == [] then refs
    else
      var p := poc - deltas[0];
      AddNew(if p >= 0 && p !in refs then refs + [p] else refs, deltas[1..], poc)
  }

  /** What the next frame can refer to: both lists of this one, and this one. */
  function NextReferences(deltas0: seq<int>, deltas1: seq<int>, poc: int): seq<int> {
    AddNew(Pictures(Kept(deltas0, poc), poc), deltas1, poc) + [poc]
  }

  lemma {:induction false} AddNewGrows(refs: seq<int>, deltas: seq<int>, poc: int)
    ensures |refs| <= |AddNew(refs, deltas, poc)|
    decreases deltas
  {
    if deltas != [] {
      var p := poc - deltas[0];
      AddNewGrows(if p >= 0 && p !in refs then refs + [p] else refs, deltas[1..], poc);
    }
  }

  /** An array that starts with these pictures. */
  ghost predicate Holds(slots: seq<int>, was: seq<int>, refs: seq<int>) {
    |refs| <= |was| && slots == refs + was[|refs|..]
  }

  method Store(slots: seq<int>, ghost was: seq<int>, ghost refs: seq<int>, n: nat, p: int) returns (r: seq<int>)
    requires Holds(slots, was, refs) && n == |refs| < |was|
    ensures Holds(r, was, refs + [p])
  {
    r := slots[n := p];
  }

  lemma HoldsNone(slots: seq<int>)
    ensures Holds(slots, slots, [])
  {
  }

  /** The loop over list 0. */
  method StoreList0(deltas: seq<int>, poc: int, slots: seq<int>) returns (ok: bool, r: seq<int>, n: nat)
    ensures ok <==> |Kept(deltas, poc)| <= |slots|
    ensures ok ==> n == |Kept(deltas, poc)| && Holds(r, slots, Pictures(Kept(deltas, poc), poc))
  {
    hide Holds, Kept, Pictures;
    ok, r, n := true, slots, 0;
    ghost var part: seq<int> := [];
    HoldsNone(slots);
    assert deltas[0..] == deltas;
    ghost var all := Pictures(Kept(deltas, poc), poc);
    assert part + all == all;
    for i := 0 to |deltas|
      invariant ok && n == |part| <= |slots| && Holds(r, slots, part)
      invariant all == part + Pictures(Kept(deltas[i..], poc), poc)
    {
      var absPoc := poc - deltas[i];
      assert deltas[i..][1..] == deltas[i + 1..];
      PicturesStep(deltas[i..], poc);
      ghost var rest := Pictures(Kept(deltas[i + 1..], poc), poc);
      assert part + ([absPoc] + rest) == (part + [absPoc]) + rest;
      if absPoc >= 0 {
        if n >= |slots| {
          ok := false;
          return;
        }
        r := Store(r, slots, part, n, absPoc);
        part := part + [absPoc];
        n := n + 1;
      }
    }
    PicturesStep(deltas[|deltas|..], poc);
    assert all == part;
  }

  lemma PicturesStep(deltas: seq<int>, poc: int)
    ensures deltas == [] ==> Pictures(Kept(deltas, poc), poc) == []
    ensures deltas != [] && poc - deltas[0] < 0 ==>
      Pictures(Kept(deltas, poc), poc) == Pictures(Kept(deltas[1..], poc), poc)
    ensures deltas != [] && poc - deltas[0] >= 0 ==>
              Pictures(Kept(deltas, poc), poc) == [poc - deltas[0]] + Pictures(Kept(deltas[1..], poc), poc)
  {
    if deltas != [] {
      var k := Kept(deltas[1..], poc);
      assert poc - deltas[0] < 0 ==> Kept(deltas, poc) == k;
      assert poc - deltas[0] >= 0 ==> Kept(deltas, poc) == [deltas[0]] + k && ([deltas[0]] + k)[1..] == k;
    }
  }

  /** The loop over list 1, which skips what is stored already. */
  method StoreList1(deltas: seq<int>, poc: int, slots: seq<int>, ghost was: seq<int>, ghost refs: seq<int>,
                    numRefs: nat)
    returns (ok: bool, r: seq<int>, n: nat)
    requires Holds(slots, was, refs) && numRefs == |refs| && |slots| == |was|
    ensures ok <==> |AddNew(refs, deltas, poc)| <= |was|
    ensures ok ==> n == |AddNew(refs, deltas, poc)| && Holds(r, was, AddNew(refs, deltas, poc))
  {
    ok, r, n := true, slots, numRefs;
    ghost var part := refs;
    assert deltas[0..] == deltas;
    for i := 0 to |deltas|
      invariant ok && n == |part| && Holds(r, was, part)
      invariant AddNew(refs, deltas, poc) == AddNew(part, deltas[i..], poc)
    {
      var absPoc := poc - deltas[i];
      assert deltas[i..][1..] == deltas[i + 1..];
      if absPoc >= 0 {
        assert r[..n] == part;
        var alreadyExist := Find(r[..n], absPoc);
        if !alreadyExist {
          if n >= |r| {
            AddNewGrows(part + [absPoc], deltas[i + 1..], poc);
            ok := false;
            return;
          }
          r := Store(r, was, part, n, absPoc);
          part := part + [absPoc];
          n := n + 1;
        }
      }
    }
  }

  method Find(s: seq<int>, x: int) returns (found: bool)
    ensures found <==> x in s
  {
    found := false;
    for j := 0 to |s|
      invariant x !in s[..j]
    {
      if s[j] == x {
        found := true;
        return;
      }
    }
    assert s[..|s|] == s;
  }

  /** The pictures kept for the next frame overwrite the start of the array. */
  method UpdateReferences(deltas0: seq<int>, deltas1: seq<int>, poc: int, slots: seq<int>)
    returns (ok: bool, r: seq<int>, numRefs: nat)
    ensures var next := NextReferences(deltas0, deltas1, poc);
            && (ok <==> |next| <= |slots|)
            && (ok ==> numRefs == |next| && Holds(r, slots, next))
  {
    hide Kept, AddNew, Pictures;
    ghost var first := Pictures(Kept(deltas0, poc), poc);
    AddNewGrows(first, deltas1, poc);
    ok, r, numRefs := StoreList0(deltas0, poc, slots);
    if !ok {
      return;
    }
    ok, r, numRefs := StoreList1(deltas1, poc, r, slots, first, numRefs);
    if !ok || numRefs >= |slots| {
      ok := false;
      return;
    }
    r := Store(r, slots, AddNew(first, deltas1, poc), numRefs, poc);
    numRefs := numRefs + 1;
  }

  // ---- availability ----

  /** Every reference lies at or after picture 0 and is among the available pictures. */
  ghost predicate AllPresent(deltas: seq<int>, poc: int, available: seq<int>) {
    forall d :: d in deltas ==> poc - d >= 0 && poc - d in available
  }

  ghost predicate SomeMissing(deltas: seq<int>, poc: int, available: seq<int>) {
    exists d :: d in deltas && poc - d >= 0 && poc - d !in available
  }

  /** Remainder as the program computes it: it takes the sign of the dividend. */
  function Remainder(a: int, b: nat): int
    requires b > 0
  {
    if a < 0 then -((-a) % b) else a % b
  }

  /** The entries whose picture has this position in its GOP, in the frame's layer. */
  function SamePhase(g: Structure, list: seq<Entry>, cur: nat, absPoc: int): set<nat>
    requires g.Valid(list) && cur < g.size
  {
    set k: nat | k < g.size && Remainder(absPoc, g.gm) == Remainder(list[k].poc, g.gm)
                 && list[k].temporalId == list[cur].temporalId
  }

  lemma EqualRemainders(a: int, b: int, d: nat)
    requires d > 0
    ensures a % d == b % d <==> (a - b) % d == 0
  {
    var p, q := a / d, b / d;
    assert a == p * d + a % d && b == q * d + b % d;
    assert (p - q) * d == p * d - q * d;
    if a % d == b % d {
      DivModUnique(p - q, 0, d);
    }
    if (a - b) % d == 0 {
      var t := (a - b) / d;
      assert a - b == t * d && (q + t) * d == q * d + t * d;
      DivModUnique(q + t, b % d, d);
    }
  }

  /** A referenced picture has an entry's phase exactly if they are whole GOPs apart; for an entry that is not
      configured both must be at the start of a GOP. */
  lemma PhaseMeans(absPoc: nat, poc: int, d: nat)
    requires d > 0
    ensures Remainder(absPoc, d) == Remainder(poc, d) <==> (absPoc - poc) % d == 0 && (poc >= 0 || poc % d == 0)
  {
    EqualRemainders(absPoc, poc, d);
    if poc < 0 {
      NegatedRemainder(poc, d);
    }
  }

  lemma NegatedRemainder(a: int, d: nat)
    requires d > 0
    ensures (-a) % d == 0 <==> a % d == 0
  {
    var p, q := a / d, (-a) / d;
    assert a == p * d + a % d && -a == q * d + (-a) % d;
    assert (-p) * d == -(p * d) && (-q) * d == -(q * d);
    if a % d == 0 {
      DivModUnique(-p, 0, d);
    }
    if (-a) % d == 0 {
      DivModUnique(-q, 0, d);
    }
  }

  /** The entries a referenced picture marks: in the frame's layer, whole GOPs away. */
  ghost predicate Marks(g: Structure, list: seq<Entry>, cur: nat, absPoc: int, k: nat)
    requires g.Valid(list) && cur < g.size
  {
    && k < g.size && list[k].temporalId == list[cur].temporalId
    && (absPoc - list[k].poc) % g.gm == 0 && (list[k].poc >= 0 || list[k].poc % g.gm == 0)
  }

  lemma SamePhaseMarks(g: Structure, list: seq<Entry>, cur: nat, absPoc: nat, k: nat)
    requires g.Valid(list) && cur < g.size
    ensures k in SamePhase(g, list, cur, absPoc) <==> Marks(g, list, cur, absPoc, k)
  {
    hide Remainder;
    if k < g.size {
      PhaseMeans(absPoc, list[k].poc, g.gm);
    }
  }

  /** The entries referred to by these references. */
  function Referred(g: Structure, list: seq<Entry>, cur: nat, poc: int, available: seq<int>, deltas: seq<int>): set<nat>
    requires g.Valid(list) && cur < g.size
  {
    if deltas == [] then {}
    else
      var absPoc := poc - deltas[|deltas| - 1];
      Referred(g, list, cur, poc, available, deltas[..|deltas| - 1]) +
      (if absPoc >= 0 && absPoc in available then SamePhase(g, list, cur, absPoc) else {})
  }

  /** Some available reference marks the entry. */
  ghost predicate MarkedAsReference(g: Structure, list: seq<Entry>, cur: nat, poc: int, available: seq<int>,
                                    deltas: seq<int>, k: nat)
    requires g.Valid(list) && cur < g.size
  {
    exists d :: d in deltas && Marking(g, list, cur, poc, available, d, k)
  }

  ghost predicate Marking(g: Structure, list: seq<Entry>, cur: nat, poc: int, available: seq<int>, d: int, k: nat)
    requires g.Valid(list) && cur < g.size
  {
    poc - d >= 0 && poc - d in available && Marks(g, list, cur, poc - d, k)
  }

  lemma NothingMarks(g: Structure, list: seq<Entry>, cur: nat, poc: int, available: seq<int>, k: nat)
    requires g.Valid(list) && cur < g.size
    ensures !MarkedAsReference(g, list, cur, poc, available, [], k)
  {
  }

  lemma OneMoreMarks(g: Structure, list: seq<Entry>, cur: nat, poc: int, available: seq<int>, deltas: seq<int>, k: nat)
    requires g.Valid(list) && cur < g.size && deltas != []
    ensures var front, d := deltas[..|deltas| - 1], deltas[|deltas| - 1];
            MarkedAsReference(g, list, cur, poc, available, deltas, k) <==>
            MarkedAsReference(g, list, cur, poc, available, front, k) || Marking(g, list, cur, poc, available, d, k)
  {
    hide Marking;
    var front, d := deltas[..|deltas| - 1], deltas[|deltas| - 1];
    assert deltas == front + [d];
    assert forall x :: x in deltas <==> x in front || x == d;
  }

  lemma {:induction false} ReferredMeans(g: Structure, list: seq<Entry>, cur: nat, poc: int, available: seq<int>,
                                         deltas: seq<int>, k: nat)
    requires g.Valid(list) && cur < g.size
    ensures k in Referred(g, list, cur, poc, available, deltas) <==>
            MarkedAsReference(g, list, cur, poc, available, deltas, k)
  {
    hide Marks, SamePhase, MarkedAsReference;
    if deltas == [] {
      NothingMarks(g, list, cur, poc, available, k);
    } else {
      var front, d := deltas[..|deltas| - 1], deltas[|deltas| - 1];
      ReferredMeans(g, list, cur, poc, available, front, k);
      OneMoreMarks(g, list, cur, poc, available, deltas, k);
      if poc - d >= 0 {
        SamePhaseMarks(g, list, cur, poc - d, k);
      }
    }
  }

  /** The flags after the check: an entry has it if it had it or an available reference marks it. */
  ghost predicate FlagsReferences(g: Structure, list: seq<Entry>, out: seq<Entry>, cur: nat, poc: int,
                                  available: seq<int>)
    requires g.Valid(list) && cur < g.size
  {
    && |out| == |list|
    && forall k: nat :: k < |list| ==>
      && out[k].poc == list[k].poc && out[k].temporalId == list[k].temporalId
      && out[k].active == list[k].active && out[k].deltas == list[k].deltas
      && (out[k].refPic <==>
            list[k].refPic || MarkedAsReference(g, list, cur, poc, available, list[cur].deltas, k))
  }

  lemma MarkedFlags(g: Structure, list: seq<Entry>, out: seq<Entry>, cur: nat, poc: int, available: seq<int>)
    requires g.Valid(list) && cur < g.size
    requires MarkedBy(list, out, Referred(g, list, cur, poc, available, list[cur].deltas))
    ensures FlagsReferences(g, list, out, cur, poc, available)
  {
    hide Referred, MarkedAsReference;
    forall k: nat | k < |list|
      ensures k in Referred(g, list, cur, poc, available, list[cur].deltas) <==>
              MarkedAsReference(g, list, cur, poc, available, list[cur].deltas, k)
    {
      ReferredMeans(g, list, cur, poc, available, list[cur].deltas, k);
    }
  }

  lemma MarkTwice(list: seq<Entry>, a: seq<Entry>, b: seq<Entry>, m: set<nat>, n: set<nat>)
    requires MarkedBy(list, a, m) && MarkedBy(a, b, n)
    ensures MarkedBy(list, b, m + n)
  {
  }

  /** The innermost marking loop. */
  method MarkPhase(g: Structure, list: seq<Entry>, cur: nat, absPoc: int) returns (out: seq<Entry>)
    requires g.Valid(list) && cur < g.size
    ensures MarkedBy(list, out, SamePhase(g, list, cur, absPoc))
  {
    hide Remainder;
    out := list;
    for k := 0 to g.size
      invariant |out| == |list|
      invariant forall j :: 0 <= j < |list| ==>
        out[j] == list[j].(refPic := list[j].refPic || (j < k && j in SamePhase(g, list, cur, absPoc)))
    {
      if Remainder(absPoc, g.gm) == Remainder(list[k].poc, g.gm) {
        if list[k].temporalId == list[cur].temporalId {
          out := out[k := out[k].(refPic := true)];
        }
      }
    }
  }

  /** Some reference lies before picture 0. */
  ghost predicate SomeBefore(deltas: seq<int>, poc: int) {
    exists d :: d in deltas && poc - d < 0
  }

  lemma Availability(deltas: seq<int>, poc: int, available: seq<int>)
    ensures AllPresent(deltas, poc, available) <==> !SomeBefore(deltas, poc) && !SomeMissing(deltas, poc, available)
  {
  }

  lemma AvailabilityStep(deltas: seq<int>, d: int, poc: int, available: seq<int>)
    ensures SomeBefore(deltas + [d], poc) <==> SomeBefore(deltas, poc) || poc - d < 0
    ensures SomeMissing(deltas + [d], poc, available) <==>
      SomeMissing(deltas, poc, available) || (poc - d >= 0 && poc - d !in available)
  {
    assert forall x :: x in deltas + [d] <==> x in deltas || x == d;
    assert d in deltas + [d];
  }

  lemma NothingReferred(g: Structure, list: seq<Entry>, cur: nat, poc: int, available: seq<int>, none: seq<int>)
    requires g.Valid(list) && cur < g.size && none == []
    ensures MarkedBy(list, list, Referred(g, list, cur, poc, available, none))
    ensures !SomeBefore(none, poc) && !SomeMissing(none, poc, available)
  {
  }

  /** The availability check: whether a reference is too early or missing, and which entries are referred to. */
  method CheckReferences(g: Structure, list: seq<Entry>, cur: nat, poc: int, available: seq<int>)
    returns (out: seq<Entry>, beforeI: bool, error: bool)
    requires g.Valid(list) && cur < g.size
    ensures MarkedBy(list, out, Referred(g, list, cur, poc, available, list[cur].deltas))
    ensures FlagsReferences(g, list, out, cur, poc, available)
    ensures beforeI <==> SomeBefore(list[cur].deltas, poc)
    ensures error <==> SomeMissing(list[cur].deltas, poc, available)
  {
    out, beforeI, error := list, false, false;
    hide *;
    StructureSizes(g, list);
    var deltas := list[cur].deltas;
    NothingReferred(g, list, cur, poc, available, deltas[..0]);
    for i := 0 to |deltas|
      invariant MarkedBy(list, out, Referred(g, list, cur, poc, available, deltas[..i]))
      invariant beforeI <==> SomeBefore(deltas[..i], poc)
      invariant error <==> SomeMissing(deltas[..i], poc, available)
    {
      var absPoc := poc - deltas[i];
      assert deltas[..i + 1] == deltas[..i] + [deltas[i]];
      ReferredStep(g, list, cur, poc, available, deltas[..i], deltas[i]);
      AvailabilityStep(deltas[..i], deltas[i], poc, available);
      ghost var marked := Referred(g, list, cur, poc, available, deltas[..i]);
      assert marked + {} == marked;
      if absPoc < 0 {
        beforeI := true;
      } else {
        var found: bool;
        out, found := MarkFound(g, list, out, cur, absPoc, available, marked);
        if !found {
          error := true;
        }
      }
    }
    assert deltas[..|deltas|] == deltas;
    MarkedFlags(g, list, out, cur, poc, available);
  }

  lemma ReferredStep(g: Structure, list: seq<Entry>, cur: nat, poc: int, available: seq<int>, deltas: seq<int>, d: int)
    requires g.Valid(list) && cur < g.size
    ensures Referred(g, list, cur, poc, available, deltas + [d])
         == Referred(g, list, cur, poc, available, deltas) +
            (if poc - d >= 0 && poc - d in available then SamePhase(g, list, cur, poc - d) else {})
  {
    assert (deltas + [d])[..|deltas + [d]| - 1] == deltas;
  }

  /** Look a picture up among the available ones; each hit marks the entries of its phase. */
  method MarkFound(g: Structure, list: seq<Entry>, was: seq<Entry>, cur: nat, absPoc: int, available: seq<int>,
                   ghost marked: set<nat>)
    returns (out: seq<Entry>, found: bool)
    requires g.Valid(list) && cur < g.size && MarkedBy(list, was, marked)
    ensures found <==> absPoc in available
    ensures MarkedBy(list, out, marked + if found then SamePhase(g, list, cur, absPoc) else {})
  {
    hide MarkedBy, SamePhase;
    out, found := was, false;
    assert marked + {} == marked;
    MarkedLength(list, out, marked);
    for j := 0 to |available|
      invariant found <==> absPoc in available[..j]
      invariant |out| == |list| && MarkedBy(list, out, marked + if found then SamePhase(g, list, cur, absPoc) else {})
    {
      if available[j] == absPoc {
        ghost var before := marked + if found then SamePhase(g, list, cur, absPoc) else {};
        found := true;
        PhaseSame(g, list, out, before, cur, absPoc);
        var next := MarkPhase(g, out, cur, absPoc);
        MarkTwice(list, out, next, before, SamePhase(g, list, cur, absPoc));
        assert before + SamePhase(g, list, cur, absPoc) == marked + SamePhase(g, list, cur, absPoc);
        out := next;
        MarkedLength(list, out, marked + SamePhase(g, list, cur, absPoc));
      }
    }
    assert available[..|available|] == available;
  }

  lemma MarkedLength(list: seq<Entry>, out: seq<Entry>, marked: set<nat>)
    requires MarkedBy(list, out, marked)
    ensures |out| == |list|
  {
  }

  lemma PhaseSame(g: Structure, list: seq<Entry>, out: seq<Entry>, marked: set<nat>, cur: nat, absPoc: int)
    requires g.Valid(list) && cur < g.size && MarkedBy(list, out, marked)
    ensures |out| == |list| && SamePhase(g, out, cur, absPoc) == SamePhase(g, list, cur, absPoc)
  {
  }

  // ---- only the flags change ----

  /** The first entries agree in all but their flag. */
  ghost predicate SameBase(g: Structure, a: seq<Entry>, b: seq<Entry>) {
    |a| == |b| && forall k :: 0 <= k < g.size && k < |a| ==> a[k].(refPic := false) == b[k].(refPic := false)
  }

  lemma SamePassPoc(g: Structure, a: seq<Entry>, b: seq<Entry>, pass: nat)
    requires g.Valid(a) && SameBase(g, a, b)
    ensures PassPoc(g, a, pass) == PassPoc(g, b, pass)
    ensures a[pass % g.size].(refPic := false) == b[pass % g.size].(refPic := false)
  {
  }

  lemma {:induction false} SameFill(g: Structure, a: seq<Entry>, b: seq<Entry>, cur: nat, poc: int, refs: seq<int>,
                                    other: nat,
                                    f: Search, pass: nat)
    requires g.Valid(a) && SameBase(g, a, b) && cur < g.size
    ensures Fill(g, a, cur, poc, refs, other, f, pass) == Fill(g, b, cur, poc, refs, other, f, pass)
    decreases pass
  {
    if f.Found? && pass > 0 {
      hide PassPoc;
      SamePassPoc(g, a, b, pass - 1);
      assert a[cur].(refPic := false) == b[cur].(refPic := false);
      var next := Consider(g, a, cur, poc, refs, other, f, pass - 1);
      assert next == Consider(g, b, cur, poc, refs, other, f, pass - 1);
      if next.Found? {
        SameFill(g, a, b, cur, poc, refs, other, next, pass - 1);
      }
    }
  }
}

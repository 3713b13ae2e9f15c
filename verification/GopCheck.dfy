/** The loop that checks the GOP structure of the encoder configuration: it walks the frames in
    coding order, keeps the reference pictures each frame leaves behind, and creates list entries
    for frames whose references are not all there. */
module GopCheck {
  import opened Arith
  import opened ReferenceLists

  const MAX_GOP := 64
  /** Places in the list of available pictures. */
  const PLACES := MAX_NUM_REF_PICS + 1

  // ---- how a run is described ----

  datatype Lists = Lists(deltas0: seq<int>, deltas1: seq<int>) | Beyond

  /** The lists of a created entry: the references that exist, then replacements in each list. */
  function Completed(g: Structure, list0: seq<Entry>, list1: seq<Entry>, pass: nat, refs: seq<int>): Lists
    requires g.Valid(list0) && g.Valid(list1)
  {
    var cur, poc := pass % g.size, PassPoc(g, list0, pass);
    var kept0, kept1 := Kept(list0[cur].deltas, poc), Kept(list1[cur].deltas, poc);
    var r0 := Fill(g, list0, cur, poc, refs, |kept1|, Found(kept0, {}), pass);
    if r0.OutOfBounds? then Beyond
    else
      var r1 := Fill(g, list1, cur, poc, refs, |r0.deltas|, Found(kept1, {}), pass);
      if r1.OutOfBounds? then Beyond else Lists(r0.deltas, r1.deltas)
  }

  /** A pass: the available pictures before it and the lists its frame is coded with. */
  datatype Frame = Frame(refs: seq<int>, numRefs: nat, deltas0: seq<int>, deltas1: seq<int>)

  ghost predicate Present(g: Structure, list0: seq<Entry>, pass: nat, refs: seq<int>, numRefs: nat)
    requires g.Valid(list0) && numRefs <= |refs|
  {
    AllPresent(list0[pass % g.size].deltas, PassPoc(g, list0, pass), refs[..numRefs])
  }

  /** A frame keeps its configured lists if all its references are present; otherwise they are completed. */
  ghost predicate FrameOk(g: Structure, list0: seq<Entry>, list1: seq<Entry>, pass: nat, f: Frame)
    requires g.Valid(list0) && g.Valid(list1)
  {
    && f.numRefs <= |f.refs| == PLACES
    && list0[pass % g.size].poc >= 0 && list1[pass % g.size].poc >= 0
    && var lists := Lists(f.deltas0, f.deltas1);
       lists == if Present(g, list0, pass, f.refs, f.numRefs)
                then Lists(list0[pass % g.size].deltas, list1[pass % g.size].deltas)
                else Completed(g, list0, list1, pass, f.refs)
  }

  /** After a frame, exactly its references and itself are available; the rest of the array is untouched. */
  ghost predicate Leaves(g: Structure, list0: seq<Entry>, pass: nat, f: Frame, refs: seq<int>, numRefs: nat)
    requires g.Valid(list0)
  {
    var next := NextReferences(f.deltas0, f.deltas1, PassPoc(g, list0, pass));
    numRefs == |next| && Holds(refs, f.refs, next)
  }

  /** Before the first frame: picture 0, and picture 1 in field coding. */
  function InitialRefs(isField: bool): (refs: seq<int>)
    ensures |refs| == PLACES
    ensures if isField then refs[..2] == [0, 1] else refs[..1] == [0]
  {
    seq(PLACES, k => if isField && k == 1 then 1 else 0)
  }

  /** The passes so far, and the available pictures they leave. */
  ghost predicate Run(g: Structure, list0: seq<Entry>, list1: seq<Entry>, isField: bool, frames: seq<Frame>,
                      refs: seq<int>, numRefs: nat)
    requires g.Valid(list0) && g.Valid(list1)
    decreases |frames|
  {
    if frames == [] then
      refs == InitialRefs(isField) && numRefs == if isField then 2 else 1
    else
      var last := |frames| - 1;
      && Run(g, list0, list1, isField, frames[..last], frames[last].refs, frames[last].numRefs)
      && FrameOk(g, list0, list1, last, frames[last])
      && Leaves(g, list0, last, frames[last], refs, numRefs)
  }

  /** The largest list-0 distance, at least 0. */
  function Reach(list: seq<Entry>, n: nat): (r: nat)
    requires n <= |list|
    ensures forall k, d :: 0 <= k < n && d in list[k].deltas ==> d <= r
  {
    if n == 0 then 0 else Max(Farthest(list[n - 1].deltas), Reach(list, n - 1))
  }

  function Farthest(deltas: seq<int>): (r: nat)
    ensures forall d :: d in deltas ==> d <= r
  {
    if deltas == [] then 0
    else
      assert forall d :: d in deltas ==> d == deltas[0] || d in deltas[1..];
      Max(if deltas[0] > 0 then deltas[0] else 0, Farthest(deltas[1..]))
  }

  function Max(a: nat, b: nat): nat {
    if a > b then a else b
  }

  /** GOPs after which no list-0 reference can lie before picture 0. */
  function Rounds(g: Structure, list: seq<Entry>): (r: nat)
    requires g.Valid(list)
    ensures r * g.gm >= Reach(list, g.size)
  {
    var d := Reach(list, g.size);
    CeilCovers(d, g.gm);
    (d + g.gm - 1) / g.gm
  }

  /** The number of passes after which the check is decided. */
  function PassBound(g: Structure, list: seq<Entry>): nat
    requires g.Valid(list)
  {
    (Rounds(g, list) + 1) * g.size
  }

  lemma CeilCovers(d: nat, m: nat)
    requires m > 0
    ensures (d + m - 1) / m * m >= d && (d + m - 1) / m >= 0
  {
    var x := d + m - 1;
    assert x == (x / m) * m + x % m;
  }

  /** In a late enough GOP, a frame refers to pictures from 0 on only. */
  lemma LateFrame(g: Structure, list: seq<Entry>, pass: nat)
    requires g.Valid(list) && Rounds(g, list) * g.size <= pass && list[pass % g.size].poc >= 0
    ensures !SomeBefore(list[pass % g.size].deltas, PassPoc(g, list, pass))
  {
    var r, q := Rounds(g, list), pass / g.size;
    hide Rounds;
    assert pass == q * g.size + pass % g.size;
    MulLe(q + 1, r, g.size);
    assert (q + 1) * g.size == q * g.size + g.size;
    MulLe(r, q, g.gm);
  }

  // ---- what holds of a created entry ----

  /** Both lists of a created entry refer to pictures from 0 on, keep every reference that exists, keep
      the order by distance, and gain no duplicate; an added reference is a picture of an earlier
      pass in no higher temporal layer that the array holds, in use or left over. */
  lemma CompletedRefersForward(g: Structure, list0: seq<Entry>, list1: seq<Entry>, pass: nat, refs: seq<int>)
    requires g.Valid(list0) && g.Valid(list1) && Completed(g, list0, list1, pass, refs).Lists?
    ensures var poc, c := PassPoc(g, list0, pass), Completed(g, list0, list1, pass, refs);
            && Improves(g, list0, pass, poc, refs, c.deltas0) && Improves(g, list1, pass, poc, refs, c.deltas1)
  {
    var cur, poc := pass % g.size, PassPoc(g, list0, pass);
    var kept0, kept1 := Kept(list0[cur].deltas, poc), Kept(list1[cur].deltas, poc);
    hide PassPoc, Fill, Kept, Improves;
    FillCompletes(g, list0, cur, poc, refs, |kept1|, Found(kept0, {}), pass, pass);
    var r0 := Fill(g, list0, cur, poc, refs, |kept1|, Found(kept0, {}), pass);
    FillCompletes(g, list1, cur, poc, refs, |r0.deltas|, Found(kept1, {}), pass, pass);
    var c := Completed(g, list0, list1, pass, refs);
    CompletesImproves(g, list0, pass, poc, refs, c.deltas0);
    CompletesImproves(g, list1, pass, poc, refs, c.deltas1);
  }

  ghost predicate Improves(g: Structure, list: seq<Entry>, pass: nat, poc: int, refs: seq<int>, after: seq<int>)
    requires g.Valid(list)
  {
    var before := list[pass % g.size].deltas;
    && (forall d :: d in after ==> poc - d >= 0)
    && (forall d :: d in before && poc - d >= 0 ==> d in after)
    && (forall d :: d in after ==> d in before || Replacement(g, list, pass % g.size, poc, refs, pass, d))
    && (Distinct(before) ==> Distinct(after))
    && (PositivesAscend(before) ==> PositivesAscend(after))
  }

  lemma CompletesImproves(g: Structure, list: seq<Entry>, pass: nat, poc: int, refs: seq<int>, after: seq<int>)
    requires g.Valid(list)
    requires Completes(g, list, pass % g.size, poc, refs, pass, Kept(list[pass % g.size].deltas, poc), after)
    ensures Improves(g, list, pass, poc, refs, after)
  {
    var before := list[pass % g.size].deltas;
    if Distinct(before) {
      KeptDistinct(before, poc);
    }
    if PositivesAscend(before) {
      KeptAscends(before, poc);
    }
    hide Distinct, PositivesAscend, CodedBefore;
  }

  // ---- the loop ----

  datatype Verdict = Verified | Invalid | IndexOutOfRange

  function Count(s: seq<bool>): (n: nat)
    ensures n <= |s|
    ensures n == |s| <==> forall k :: 0 <= k < |s| ==> s[k]
  {
    if s == [] then 0 else (if s[|s| - 1] then 1 else 0) + Count(s[..|s| - 1])
  }

  lemma {:induction false} CountSet(s: seq<bool>, k: nat)
    requires k < |s| && !s[k]
    ensures Count(s[k := true]) == Count(s) + 1
  {
    var n := |s| - 1;
    if k == n {
      assert s[k := true][..n] == s[..n];
    } else {
      assert s[k := true][..n] == s[..n][k := true];
      CountSet(s[..n], k);
    }
  }

  /** Entry k has been seen with all its references present. */
  ghost predicate Seen(g: Structure, list0: seq<Entry>, frames: seq<Frame>, k: nat)
    requires g.Valid(list0)
  {
    exists p :: 0 <= p < |frames| && SeenAt(g, list0, frames, k, p)
  }

  ghost predicate SeenAt(g: Structure, list0: seq<Entry>, frames: seq<Frame>, k: nat, p: nat)
    requires g.Valid(list0) && p < |frames|
  {
    p % g.size == k && frames[p].numRefs <= |frames[p].refs| && Present(g, list0, p, frames[p].refs, frames[p].numRefs)
  }

  /** Some frame refers to a picture from 0 on that is not available. */
  ghost predicate Missing(g: Structure, list0: seq<Entry>, frames: seq<Frame>, p: nat)
    requires g.Valid(list0) && p < |frames|
  {
    && frames[p].numRefs <= |frames[p].refs|
    && SomeMissing(list0[p % g.size].deltas, PassPoc(g, list0, p), frames[p].refs[..frames[p].numRefs])
  }

  /** What the flags say, while the loop runs. */
  ghost predicate Flags(g: Structure, list0: seq<Entry>, frames: seq<Frame>, isOK: seq<bool>, numOK: nat)
    requires g.Valid(list0)
  {
    && |isOK| == MAX_GOP && g.size <= MAX_GOP && numOK == Count(isOK[..g.size])
    && (forall k :: 0 <= k < g.size && isOK[k] ==> Seen(g, list0, frames, k))
    && (forall p :: 0 <= p < |frames| ==> !Missing(g, list0, frames, p))
    && (forall p :: Rounds(g, list0) * g.size <= p < |frames| ==> isOK[p % g.size])
  }

  /** Every entry is seen within one GOP once no reference can be too early. */
  lemma LateGopIsVerified(g: Structure, list0: seq<Entry>, frames: seq<Frame>, isOK: seq<bool>, numOK: nat)
    requires g.Valid(list0) && Flags(g, list0, frames, isOK, numOK)
    requires PassBound(g, list0) <= |frames|
    ensures numOK == g.size
  {
    var r := Rounds(g, list0);
    hide Rounds, Seen, Missing;
    assert (r + 1) * g.size == r * g.size + g.size;
    forall k | 0 <= k < g.size
      ensures isOK[k]
    {
      DivModUnique(r, k, g.size);
    }
    assert forall k :: 0 <= k < g.size ==> isOK[..g.size][k];
  }

  function Plain(e: Entry): Entry {
    e.(refPic := false)
  }

  /** A created entry: the base entry with its new references, no more of them active than there are. */
  function Created(base: Entry, deltas: seq<int>): Entry {
    base.(deltas := deltas, active := if |deltas| < base.active then |deltas| else base.active)
  }

  /** An entry made for a frame of a configured one: its picture and layer, the frame's references, and as many of
      them active as are configured and there. */
  ghost predicate MadeFor(base: Entry, deltas: seq<int>, e: Entry) {
    && e.poc == base.poc && e.temporalId == base.temporalId && e.deltas == deltas
    && e.active <= |deltas| && e.active <= base.active && (e.active == |deltas| || e.active == base.active)
  }

  /** The first entries after the configured ones are made for the passes given, in both lists. */
  ghost predicate EntriesMade(g: Structure, base0: seq<Entry>, base1: seq<Entry>, list0: seq<Entry>, list1: seq<Entry>,
                              frames: seq<Frame>, made: seq<nat>)
    requires g.Valid(base0) && g.Valid(base1)
  {
    && |list0| == |list1| && g.size + |made| <= |list0|
    && forall e :: 0 <= e < |made| ==>
      && made[e] < |frames|
      && MadeFor(base0[made[e] % g.size], frames[made[e]].deltas0, list0[g.size + e])
      && MadeFor(base1[made[e] % g.size], frames[made[e]].deltas1, list1[g.size + e])
  }

  /** The entries after the configured ones, flags aside: one for each frame whose references were not
      all present, in coding order, with the lists that frame was coded with. */
  ghost predicate Extras(g: Structure, base0: seq<Entry>, base1: seq<Entry>, list0: seq<Entry>, list1: seq<Entry>,
                         frames: seq<Frame>, made: seq<nat>)
    requires g.Valid(base0) && g.Valid(base1)
  {
    && |list0| == |list1| && g.size + |made| <= |list0|
    && (forall i, j :: 0 <= i < j < |made| ==> made[i] < made[j])
    && (forall p: nat :: p in made <==> p < |frames| && Needs(g, base0, frames[p], p))
    && (forall e :: 0 <= e < |made| ==> made[e] in made && made[e] < |frames|)
    && (forall e :: 0 <= e < |made| ==>
      Plain(list0[g.size + e]) == Plain(Created(base0[made[e] % g.size], frames[made[e]].deltas0)))
    && (forall e :: 0 <= e < |made| ==>
      Plain(list1[g.size + e]) == Plain(Created(base1[made[e] % g.size], frames[made[e]].deltas1)))
  }

  ghost predicate Needs(g: Structure, list0: seq<Entry>, f: Frame, pass: nat)
    requires g.Valid(list0)
  {
    f.numRefs <= |f.refs| && !Present(g, list0, pass, f.refs, f.numRefs)
  }

  lemma PlainlyCreated(base: Entry, deltas: seq<int>, e: Entry)
    requires Plain(e) == Plain(Created(base, deltas))
    ensures MadeFor(base, deltas, e)
  {
    assert Plain(e).active == e.active && Plain(e).poc == e.poc;
    assert Plain(e).temporalId == e.temporalId && Plain(e).deltas == e.deltas;
  }

  /** What a run leaves in the lists, entry by entry. */
  lemma CreatedEntriesAreLimited(g: Structure, base0: seq<Entry>, base1: seq<Entry>, list0: seq<Entry>,
                                 list1: seq<Entry>, frames: seq<Frame>, made: seq<nat>)
    requires g.Valid(base0) && g.Valid(base1) && Extras(g, base0, base1, list0, list1, frames, made)
    ensures EntriesMade(g, base0, base1, list0, list1, frames, made)
  {
    hide Needs, Created, Plain, MadeFor;
    forall e | 0 <= e < |made|
      ensures made[e] < |frames|
      ensures MadeFor(base0[made[e] % g.size], frames[made[e]].deltas0, list0[g.size + e])
      ensures MadeFor(base1[made[e] % g.size], frames[made[e]].deltas1, list1[g.size + e])
    {
      PlainlyCreated(base0[made[e] % g.size], frames[made[e]].deltas0, list0[g.size + e]);
      PlainlyCreated(base1[made[e] % g.size], frames[made[e]].deltas1, list1[g.size + e]);
    }
  }

  /** Every entry is as before, flags aside, but for one that is replaced. */
  ghost predicate Replaced(a: seq<Entry>, b: seq<Entry>, at: nat, e: Entry) {
    |a| == |b| && forall k :: 0 <= k < |a| ==> Plain(b[k]) == if k == at then Plain(e) else Plain(a[k])
  }

  lemma MarkedIsPlain(g: Structure, base: seq<Entry>, a: seq<Entry>, b: seq<Entry>, marked: set<nat>)
    requires SameBase(g, base, a) && MarkedBy(a, b, marked)
    ensures SameBase(g, base, b) && |b| == |a| && forall k :: 0 <= k < |a| ==> Plain(b[k]) == Plain(a[k])
  {
  }

  lemma {:induction false} CountNone(s: seq<bool>)
    requires forall k :: 0 <= k < |s| ==> !s[k]
    ensures Count(s) == 0
  {
    if s != [] {
      CountNone(s[..|s| - 1]);
    }
  }

  lemma NothingSeen(g: Structure, list0: seq<Entry>, isOK: seq<bool>)
    requires g.Valid(list0) && g.size <= MAX_GOP == |isOK| && forall k :: 0 <= k < |isOK| ==> !isOK[k]
    ensures Flags(g, list0, [], isOK, 0)
  {
    CountNone(isOK[..g.size]);
  }

  lemma SeenGrows(g: Structure, list0: seq<Entry>, frames: seq<Frame>, f: Frame, k: nat)
    requires g.Valid(list0) && Seen(g, list0, frames, k)
    ensures Seen(g, list0, frames + [f], k)
  {
    hide Present;
    var q :| 0 <= q < |frames| && SeenAt(g, list0, frames, k, q);
    assert SeenAt(g, list0, frames + [f], k, q);
  }

  lemma NoneMissing(g: Structure, list0: seq<Entry>, frames: seq<Frame>, f: Frame)
    requires g.Valid(list0) && forall p :: 0 <= p < |frames| ==> !Missing(g, list0, frames, p)
    requires f.numRefs <= |f.refs|
    requires !SomeMissing(list0[|frames| % g.size].deltas, PassPoc(g, list0, |frames|), f.refs[..f.numRefs])
    ensures forall p :: 0 <= p < |frames + [f]| ==> !Missing(g, list0, frames + [f], p)
  {
    hide PassPoc, SomeMissing;
    forall q | 0 <= q < |frames + [f]|
      ensures !Missing(g, list0, frames + [f], q)
    {
      assert q < |frames| ==> !Missing(g, list0, frames, q);
    }
  }

  /** In a late GOP a frame without a missing reference has all of them. */
  lemma LateIsPresent(g: Structure, list0: seq<Entry>, pass: nat, refs: seq<int>, numRefs: nat)
    requires g.Valid(list0) && numRefs <= |refs| && list0[pass % g.size].poc >= 0
    requires !SomeMissing(list0[pass % g.size].deltas, PassPoc(g, list0, pass), refs[..numRefs])
    ensures Rounds(g, list0) * g.size <= pass ==> Present(g, list0, pass, refs, numRefs)
  {
    hide Rounds, PassPoc, SomeMissing, SomeBefore, AllPresent;
    Availability(list0[pass % g.size].deltas, PassPoc(g, list0, pass), refs[..numRefs]);
    if Rounds(g, list0) * g.size <= pass {
      LateFrame(g, list0, pass);
    }
  }

  lemma CountAfter(isOK: seq<bool>, size: nat, cur: nat)
    requires cur < size <= |isOK|
    ensures Count(isOK[cur := true][..size]) == if isOK[cur] then Count(isOK[..size]) else Count(isOK[..size]) + 1
  {
    assert isOK[cur := true][..size] == isOK[..size][cur := true];
    if isOK[cur] {
      assert isOK[..size][cur := true] == isOK[..size];
    } else {
      CountSet(isOK[..size], cur);
    }
  }

  /** A frame without a missing reference either sets its flag or comes early. */
  lemma FlagsStep(g: Structure, list0: seq<Entry>, frames: seq<Frame>, f: Frame, isOK: seq<bool>, numOK: nat)
    requires g.Valid(list0) && Flags(g, list0, frames, isOK, numOK)
    requires f.numRefs <= |f.refs| && list0[|frames| % g.size].poc >= 0
    requires !SomeMissing(list0[|frames| % g.size].deltas, PassPoc(g, list0, |frames|), f.refs[..f.numRefs])
    ensures var cur := |frames| % g.size;
            if Present(g, list0, |frames|, f.refs, f.numRefs)
            then Flags(g, list0, frames + [f], isOK[cur := true], if isOK[cur] then numOK else numOK + 1)
            else Flags(g, list0, frames + [f], isOK, numOK)
  {
    hide Rounds, PassPoc, SomeMissing, Count, Seen, Missing, Present;
    var cur, p := |frames| % g.size, |frames|;
    var all := frames + [f];
    NoneMissing(g, list0, frames, f);
    LateIsPresent(g, list0, p, f.refs, f.numRefs);
    forall k: nat | k < g.size && Seen(g, list0, frames, k)
      ensures Seen(g, list0, all, k)
    {
      SeenGrows(g, list0, frames, f, k);
    }
    if Present(g, list0, p, f.refs, f.numRefs) {
      SeenNow(g, list0, frames, f);
      CountAfter(isOK, g.size, cur);
    }
  }

  lemma SeenNow(g: Structure, list0: seq<Entry>, frames: seq<Frame>, f: Frame)
    requires g.Valid(list0) && f.numRefs <= |f.refs| && Present(g, list0, |frames|, f.refs, f.numRefs)
    ensures Seen(g, list0, frames + [f], |frames| % g.size)
  {
    assert SeenAt(g, list0, frames + [f], |frames| % g.size, |frames|);
  }

  lemma RunStep(g: Structure, list0: seq<Entry>, list1: seq<Entry>, isField: bool, frames: seq<Frame>, f: Frame,
                refs: seq<int>, numRefs: nat)
    requires g.Valid(list0) && g.Valid(list1) && Run(g, list0, list1, isField, frames, f.refs, f.numRefs)
    requires FrameOk(g, list0, list1, |frames|, f) && Leaves(g, list0, |frames|, f, refs, numRefs)
    ensures Run(g, list0, list1, isField, frames + [f], refs, numRefs)
  {
    hide FrameOk, Leaves;
    assert (frames + [f])[..|frames|] == frames;
  }

  lemma ExtrasKept(g: Structure, base0: seq<Entry>, base1: seq<Entry>, a0: seq<Entry>, a1: seq<Entry>,
                   b0: seq<Entry>, b1: seq<Entry>, frames: seq<Frame>, made: seq<nat>, at: nat, e0: Entry, e1: Entry)
    requires g.Valid(base0) && g.Valid(base1) && Extras(g, base0, base1, a0, a1, frames, made)
    requires Replaced(a0, b0, at, e0) && Replaced(a1, b1, at, e1) && at >= g.size + |made|
    ensures Extras(g, base0, base1, b0, b1, frames, made)
  {
    hide Needs, Created;
  }

  lemma ExtrasPresent(g: Structure, base0: seq<Entry>, base1: seq<Entry>, list0: seq<Entry>, list1: seq<Entry>,
                      frames: seq<Frame>, made: seq<nat>, f: Frame)
    requires g.Valid(base0) && g.Valid(base1) && Extras(g, base0, base1, list0, list1, frames, made)
    requires !Needs(g, base0, f, |frames|)
    ensures Extras(g, base0, base1, list0, list1, frames + [f], made)
  {
    hide Needs, Created;
  }

  lemma ExtrasMade(g: Structure, base0: seq<Entry>, base1: seq<Entry>, list0: seq<Entry>, list1: seq<Entry>,
                   frames: seq<Frame>, made: seq<nat>, f: Frame)
    requires g.Valid(base0) && g.Valid(base1) && Extras(g, base0, base1, list0, list1, frames, made)
    requires Needs(g, base0, f, |frames|) && g.size + |made| < |list0|
    requires Plain(list0[g.size + |made|]) == Plain(Created(base0[|frames| % g.size], f.deltas0))
    requires Plain(list1[g.size + |made|]) == Plain(Created(base1[|frames| % g.size], f.deltas1))
    ensures Extras(g, base0, base1, list0, list1, frames + [f], made + [|frames|])
  {
    hide Needs, Created;
    var all, more := frames + [f], made + [|frames|];
    assert forall p: nat :: p in more <==> p in made || p == |frames|;
  }

  /** What a verdict means. */
  ghost predicate Explained(g: Structure, list0: seq<Entry>, list1: seq<Entry>, frames: seq<Frame>, extra: nat,
                            verdict: Verdict, refs: seq<int>, numRefs: nat)
    requires g.Valid(list0) && g.Valid(list1)
  {
    match verdict
    case Verified =>
      && (forall k :: 0 <= k < g.size ==> Seen(g, list0, frames, k))
      && (forall p :: 0 <= p < |frames| ==> !Missing(g, list0, frames, p))
    case Invalid => FoundError(g, list0, list1, frames)
    case IndexOutOfRange => numRefs <= |refs| && Exceeds(g, list0, list1, |frames|, extra, refs, numRefs)
  }

  lemma ExceedsExplains(g: Structure, list0: seq<Entry>, list1: seq<Entry>, frames: seq<Frame>, extra: nat,
                        refs: seq<int>, numRefs: nat)
    requires g.Valid(list0) && g.Valid(list1) && numRefs <= |refs|
    requires Exceeds(g, list0, list1, |frames|, extra, refs, numRefs)
    ensures Explained(g, list0, list1, frames, extra, IndexOutOfRange, refs, numRefs)
  {
    hide Exceeds;
  }

  /** An entry is not configured, or the last frame refers to a picture that is not available. */
  ghost predicate FoundError(g: Structure, list0: seq<Entry>, list1: seq<Entry>, frames: seq<Frame>)
    requires g.Valid(list0) && g.Valid(list1)
  {
    || list0[|frames| % g.size].poc < 0
    || list1[|frames| % g.size].poc < 0
    || (frames != [] && Missing(g, list0, frames, |frames| - 1))
  }

  /** The next frame needs more entries, references or available pictures than the arrays hold. */
  ghost predicate Exceeds(g: Structure, list0: seq<Entry>, list1: seq<Entry>, pass: nat, extra: nat,
                          refs: seq<int>, numRefs: nat)
    requires g.Valid(list0) && g.Valid(list1) && numRefs <= |refs|
  {
    || (!Present(g, list0, pass, refs, numRefs) &&
        (g.size + extra == MAX_GOP || Completed(g, list0, list1, pass, refs).Beyond?))
    || (exists d0, d1 :: FrameOk(g, list0, list1, pass, Frame(refs, numRefs, d0, d1)) &&
                         |NextReferences(d0, d1, PassPoc(g, list0, pass))| > PLACES)
  }

  lemma ErrorIsMissing(g: Structure, list0: seq<Entry>, list1: seq<Entry>, frames: seq<Frame>, f: Frame)
    requires g.Valid(list0) && g.Valid(list1) && f.numRefs <= |f.refs|
    requires SomeMissing(list0[|frames| % g.size].deltas, PassPoc(g, list0, |frames|), f.refs[..f.numRefs])
    ensures FoundError(g, list0, list1, frames + [f])
  {
  }

  /** A frame with all its references counts once. */
  method MarkSeen(g: Structure, curGop: nat, present: bool, isOK: seq<bool>, numOK: nat, ghost list0: seq<Entry>,
                  ghost frames: seq<Frame>, ghost f: Frame)
    returns (flags: seq<bool>, count: nat, verified: bool)
    requires g.Valid(list0) && Flags(g, list0, frames, isOK, numOK) && numOK != g.size
    requires curGop == |frames| % g.size && f.numRefs <= |f.refs| && list0[curGop].poc >= 0
    requires !SomeMissing(list0[curGop].deltas, PassPoc(g, list0, |frames|), f.refs[..f.numRefs])
    requires present <==> Present(g, list0, |frames|, f.refs, f.numRefs)
    ensures Flags(g, list0, frames + [f], flags, count) && |flags| == MAX_GOP
    ensures verified <==> count == g.size
  {
    FlagsStep(g, list0, frames, f, isOK, numOK);
    flags, count, verified := isOK, numOK, false;
    assert |isOK| == MAX_GOP && g.size <= MAX_GOP;
    hide *;
    assert isOK[curGop] ==> isOK[curGop := true] == isOK;
    if present {
      if !isOK[curGop] {
        count := numOK + 1;
        flags := isOK[curGop := true];
        if count == g.size {
          verified := true;
        }
      }
    }
  }

  /** The variables of the loop. */
  datatype Locals = Locals(refs: seq<int>, numRefs: nat, extra: nat, isOK: seq<bool>, numOK: nat, checkGop: nat,
                           verified: bool, error: bool)

  class EncAppCfg {
    var rplList0: seq<Entry>
    var rplList1: seq<Entry>

    /** The configured entries are those given, flags aside. */
    ghost predicate Valid(g: Structure, base0: seq<Entry>, base1: seq<Entry>)
      reads this
    {
      && 0 < g.size <= MAX_GOP && g.gm > 0
      && |base0| == |base1| == |rplList0| == |rplList1| == MAX_GOP
      && SameBase(g, base0, rplList0) && SameBase(g, base1, rplList1)
    }

    /** A new entry for the frame of this pass, in both lists. */
    method CreateEntry(g: Structure, pass: nat, poc: int, refs: seq<int>, extra: nat,
                       ghost base0: seq<Entry>, ghost base1: seq<Entry>)
      returns (ok: bool, deltas0: seq<int>, deltas1: seq<int>)
      requires Valid(g, base0, base1) && g.size + extra < MAX_GOP && poc == PassPoc(g, base0, pass)
      modifies this
      ensures Valid(g, base0, base1)
      ensures ok <==> Completed(g, base0, base1, pass, refs).Lists?
      ensures !ok ==> rplList0 == old(rplList0) && rplList1 == old(rplList1)
      ensures ok ==> Completed(g, base0, base1, pass, refs) == Lists(deltas0, deltas1)
      ensures ok ==> Replaced(old(rplList0), rplList0, g.size + extra, Created(base0[pass % g.size], deltas0))
      ensures ok ==> Replaced(old(rplList1), rplList1, g.size + extra, Created(base1[pass % g.size], deltas1))
      ensures ok ==> MadeFor(base0[pass % g.size], deltas0, rplList0[g.size + extra])
      ensures ok ==> MadeFor(base1[pass % g.size], deltas1, rplList1[g.size + extra])
    {
      var cur := pass % g.size;
      var copy0, copy1 := rplList0[cur], rplList1[cur];
      assert Plain(copy0) == Plain(base0[cur]) && Plain(copy1) == Plain(base1[cur]);
      hide Fill, Kept, PassPoc;
      deltas0, deltas1 := [], [];
      var kept0 := KeepReferences(copy0.deltas, poc);
      var kept1 := KeepReferences(copy1.deltas, poc);
      var r0, out0 := FillReferences(g, rplList0, cur, poc, refs, |kept1|, kept0, pass);
      SameFill(g, base0, rplList0, cur, poc, refs, |kept1|, Found(kept0, {}), pass);
      if r0.OutOfBounds? {
        ok := false;
        return;
      }
      MarkedIsPlain(g, base0, rplList0, out0, r0.marked);
      hide MarkedBy, SameBase;
      deltas0 := r0.deltas;
      var r1, out1 := FillReferences(g, rplList1, cur, poc, refs, |deltas0|, kept1, pass);
      SameFill(g, base1, rplList1, cur, poc, refs, |deltas0|, Found(kept1, {}), pass);
      if r1.OutOfBounds? {
        ok := false;
        return;
      }
      MarkedIsPlain(g, base1, rplList1, out1, r1.marked);
      deltas1 := r1.deltas;
      ExtraKeepsBase(g, base0, out0, g.size + extra, Created(copy0, deltas0));
      ExtraKeepsBase(g, base1, out1, g.size + extra, Created(copy1, deltas1));
      rplList0 := out0[g.size + extra := Created(copy0, deltas0)];
      rplList1 := out1[g.size + extra := Created(copy1, deltas1)];
      ok := true;
    }

    /** One frame: its references are checked, and its lists completed if they are not all present. */
    method CodeFrame(g: Structure, pass: nat, refs: seq<int>, numRefs: nat, extra: nat,
                     ghost base0: seq<Entry>, ghost base1: seq<Entry>)
      returns (ok: bool, present: bool, error: bool, deltas0: seq<int>, deltas1: seq<int>)
      requires Valid(g, base0, base1) && numRefs <= |refs| == PLACES && g.size + extra <= MAX_GOP
      requires base0[pass % g.size].poc >= 0 && base1[pass % g.size].poc >= 0
      modifies this
      ensures Valid(g, base0, base1)
      ensures error <==> SomeMissing(base0[pass % g.size].deltas, PassPoc(g, base0, pass), refs[..numRefs])
      ensures present <==> Present(g, base0, pass, refs, numRefs)
      ensures present <==> !error && !SomeBefore(base0[pass % g.size].deltas, PassPoc(g, base0, pass))
      ensures ok ==> FrameOk(g, base0, base1, pass, Frame(refs, numRefs, deltas0, deltas1))
      ensures !ok <==> !present && (g.size + extra == MAX_GOP || Completed(g, base0, base1, pass, refs).Beyond?)
      ensures present || !ok ==>
        && Replaced(old(rplList0), rplList0, MAX_GOP, base0[pass % g.size])
        && Replaced(old(rplList1), rplList1, MAX_GOP, base1[pass % g.size])
      ensures !present && ok ==>
        && Replaced(old(rplList0), rplList0, g.size + extra, Created(base0[pass % g.size], deltas0))
        && Replaced(old(rplList1), rplList1, g.size + extra, Created(base1[pass % g.size], deltas1))
    {
      var cur, poc := pass % g.size, PassPoc(g, rplList0, pass);
      SamePassPoc(g, base0, rplList0, pass);
      SamePassPoc(g, base1, rplList1, pass);
      hide Completed, PassPoc, AllPresent, SomeMissing, SomeBefore, Referred;
      var out, beforeI;
      out, beforeI, error := CheckReferences(g, rplList0, cur, poc, refs[..numRefs]);
      Availability(rplList0[cur].deltas, poc, refs[..numRefs]);
      MarkedIsPlain(g, base0, rplList0, out, Referred(g, rplList0, cur, poc, refs[..numRefs], rplList0[cur].deltas));
      hide MarkedBy;
      ghost var was := rplList0;
      rplList0 := out;
      ok, present := true, !beforeI && !error;
      deltas0, deltas1 := rplList0[cur].deltas, rplList1[cur].deltas;
      if !present {
        if g.size + extra >= MAX_GOP {
          ok := false;
          return;
        }
        ok, deltas0, deltas1 := CreateEntry(g, pass, poc, refs, extra, base0, base1);
      }
    }

    /** Between two passes: the frames so far, what they left, and the entries created for them. */
    ghost predicate State(g: Structure, base0: seq<Entry>, base1: seq<Entry>, isField: bool, frames: seq<Frame>,
                          made: seq<nat>, refs: seq<int>, numRefs: nat, extra: nat)
      reads this
    {
      && Valid(g, base0, base1) && numRefs <= |refs| == PLACES && extra == |made| && g.size + extra <= MAX_GOP
      && Run(g, base0, base1, isField, frames, refs, numRefs)
      && Extras(g, base0, base1, rplList0, rplList1, frames, made)
    }

    /** The part of a pass that codes a frame and updates the available pictures. */
    method StepFrame(g: Structure, pass: nat, refs: seq<int>, numRefs: nat, extra: nat, ghost base0: seq<Entry>,
                     ghost base1: seq<Entry>, ghost isField: bool, ghost frames: seq<Frame>, ghost made: seq<nat>)
      returns (ok: bool, present: bool, error: bool, next: seq<int>, count: nat, created: nat,
               ghost f: Frame, ghost more: seq<nat>)
      requires State(g, base0, base1, isField, frames, made, refs, numRefs, extra) && pass == |frames|
      requires rplList0[pass % g.size].poc >= 0 && rplList1[pass % g.size].poc >= 0
      modifies this
      ensures Valid(g, base0, base1) && f.refs == refs && f.numRefs == numRefs <= |refs|
      ensures base0[pass % g.size].poc >= 0
      ensures error <==> SomeMissing(base0[pass % g.size].deltas, PassPoc(g, base0, pass), refs[..numRefs])
      ensures present <==> Present(g, base0, pass, refs, numRefs)
      ensures present ==> !error
      ensures ok ==> State(g, base0, base1, isField, frames + [f], more, next, count, created)
      ensures !ok ==> State(g, base0, base1, isField, frames, made, refs, numRefs, extra)
      ensures !ok ==> Exceeds(g, base0, base1, pass, extra, refs, numRefs)
    {
      hide Completed, PassPoc, Run, Extras, Present, FrameOk, Replaced, Created, Plain, NextReferences,
           SomeMissing, SomeBefore;
      SamePassPoc(g, base0, rplList0, pass);
      SamePassPoc(g, base1, rplList1, pass);
      hide SameBase;
      var curPoc := PassPoc(g, rplList0, pass);
      ghost var was0, was1 := rplList0, rplList1;
      next, count, created, more := refs, numRefs, extra, made;
      var deltas0, deltas1;
      ok, present, error, deltas0, deltas1 := CodeFrame(g, pass, refs, numRefs, extra, base0, base1);
      f := Frame(refs, numRefs, deltas0, deltas1);
      ghost var e0, e1 := Created(base0[pass % g.size], deltas0), Created(base1[pass % g.size], deltas1);
      if present || !ok {
        ExtrasKept(g, base0, base1, was0, was1, rplList0, rplList1, frames, made, MAX_GOP, base0[pass % g.size],
                   base1[pass % g.size]);
      } else {
        ExtrasKept(g, base0, base1, was0, was1, rplList0, rplList1, frames, made, g.size + extra, e0, e1);
      }
      if !ok {
        return;
      }
      ok, next, count := UpdateReferences(deltas0, deltas1, curPoc, refs);
      if !ok {
        next, count := refs, numRefs;
        return;
      }
      assert Leaves(g, base0, pass, f, next, count);
      RunStep(g, base0, base1, isField, frames, f, next, count);
      if present {
        ExtrasPresent(g, base0, base1, rplList0, rplList1, frames, made, f);
      } else {
        PlainAt(was0, rplList0, g.size + extra, e0);
        PlainAt(was1, rplList1, g.size + extra, e1);
        ExtrasMade(g, base0, base1, rplList0, rplList1, frames, made, f);
        more, created := made + [pass], extra + 1;
      }
    }

    /** What the loop keeps. An error or enough seen entries end it; until then it is within the bound. */
    ghost predicate Invariant(g: Structure, base0: seq<Entry>, base1: seq<Entry>, isField: bool, frames: seq<Frame>,
                              made: seq<nat>, s: Locals)
      reads this
    {
      && State(g, base0, base1, isField, frames, made, s.refs, s.numRefs, s.extra)
      && |frames| <= PassBound(g, base0)
      && (!s.error ==> s.checkGop == |frames| + 1 && Flags(g, base0, frames, s.isOK, s.numOK))
      && (s.verified <==> !s.error && s.numOK == g.size)
      && (s.error ==> FoundError(g, base0, base1, frames))
    }

    /** The body of the loop; it fails only on an index past an array's end. */
    method Pass(g: Structure, s: Locals, ghost base0: seq<Entry>, ghost base1: seq<Entry>, ghost isField: bool,
                ghost frames: seq<Frame>, ghost made: seq<nat>)
      returns (ok: bool, t: Locals, ghost longer: seq<Frame>, ghost more: seq<nat>)
      requires Invariant(g, base0, base1, isField, frames, made, s) && !s.verified && !s.error
      modifies this
      ensures ok ==> Invariant(g, base0, base1, isField, longer, more, t)
      ensures ok ==> if |longer| == |frames| then t.error else |frames| < |longer|
      ensures !ok ==> Invariant(g, base0, base1, isField, frames, made, s)
      ensures !ok ==> Explained(g, base0, base1, frames, |made|, IndexOutOfRange, s.refs, s.numRefs)
    {
      hide *;
      InvariantMeans(g, base0, base1, isField, frames, made, s);
      StateSizes(g, base0, base1, isField, frames, made, s.refs, s.numRefs, s.extra);
      ok, t, longer, more := true, s, frames, made;
      var curGop := (s.checkGop - 1) % g.size;
      if |frames| >= PassBound(g, base0) {
        LateGopIsVerified(g, base0, frames, s.isOK, s.numOK);
      }
      t := t.(checkGop := s.checkGop + 1);
      if rplList0[curGop].poc < 0 || rplList1[curGop].poc < 0 {
        t := t.(error := true);
        NotConfigured(g, base0, base1, rplList0, rplList1, frames);
        InvariantFrom(g, base0, base1, isField, longer, more, t);
        return;
      }
      ghost var f;
      var present, error, refs, numRefs, extra;
      ok, present, error, refs, numRefs, extra, f, more :=
        StepFrame(g, s.checkGop - 1, s.refs, s.numRefs, s.extra, base0, base1, isField, frames, made);
      if !ok {
        InvariantFrom(g, base0, base1, isField, frames, made, s);
        ExceedsExplains(g, base0, base1, frames, |made|, s.refs, s.numRefs);
        return;
      }
      longer := frames + [f];
      t := t.(refs := refs, numRefs := numRefs, extra := extra, error := error);
      if error {
        ErrorIsMissing(g, base0, base1, frames, f);
      } else {
        var flags, count, verified := MarkSeen(g, curGop, present, s.isOK, s.numOK, base0, frames, f);
        t := t.(isOK := flags, numOK := count, verified := verified);
      }
      InvariantFrom(g, base0, base1, isField, longer, more, t);
    }

    lemma InvariantMeans(g: Structure, base0: seq<Entry>, base1: seq<Entry>, isField: bool, frames: seq<Frame>,
                         made: seq<nat>, s: Locals)
      requires Invariant(g, base0, base1, isField, frames, made, s)
      ensures State(g, base0, base1, isField, frames, made, s.refs, s.numRefs, s.extra)
      ensures g.Valid(base0) && g.Valid(base1) && |frames| <= PassBound(g, base0)
      ensures !s.error ==> s.checkGop == |frames| + 1 && Flags(g, base0, frames, s.isOK, s.numOK)
      ensures s.verified <==> !s.error && s.numOK == g.size
      ensures s.error ==> FoundError(g, base0, base1, frames)
    {
      hide SameBase, Run, Extras, Flags, FoundError, PassBound;
    }

    lemma InvariantFrom(g: Structure, base0: seq<Entry>, base1: seq<Entry>, isField: bool, frames: seq<Frame>,
                        made: seq<nat>, s: Locals)
      requires State(g, base0, base1, isField, frames, made, s.refs, s.numRefs, s.extra)
      requires g.Valid(base0) && g.Valid(base1) && |frames| <= PassBound(g, base0)
      requires !s.error ==> s.checkGop == |frames| + 1 && Flags(g, base0, frames, s.isOK, s.numOK)
      requires s.verified <==> !s.error && s.numOK == g.size
      requires s.error ==> FoundError(g, base0, base1, frames)
      ensures Invariant(g, base0, base1, isField, frames, made, s)
    {
      hide State, Flags, FoundError, PassBound;
    }

    /** The whole loop. It ends within a number of passes fixed by the configured lists. */
    method VerifyGop(gopSize: nat, multipleFactor: nat, isField: bool)
      returns (verdict: Verdict, refList: seq<int>, numRefs: nat, ghost frames: seq<Frame>, ghost made: seq<nat>)
      requires 0 < gopSize <= MAX_GOP && multipleFactor > 0 && |rplList0| == |rplList1| == MAX_GOP
      modifies this
      ensures gopSize * multipleFactor > 0
      ensures var g := Structure(gopSize, gopSize * multipleFactor);
              && State(g, old(rplList0), old(rplList1), isField, frames, made, refList, numRefs, |made|)
              && |frames| <= PassBound(g, old(rplList0))
              && EntriesMade(g, old(rplList0), old(rplList1), rplList0, rplList1, frames, made)
              && Explained(g, old(rplList0), old(rplList1), frames, |made|, verdict, refList, numRefs)
    {
      ghost var base0, base1 := rplList0, rplList1;
      MulLe(1, multipleFactor, gopSize);
      var g := Structure(gopSize, gopSize * multipleFactor);
      var s := Locals(InitialRefs(isField), if isField then 2 else 1, 0, seq(MAX_GOP, _ => false), 0, 1, false, false);
      frames, made := [], [];
      NothingSeen(g, base0, s.isOK);
      hide *;
      InitialState(g, isField);
      StateSizes(g, base0, base1, isField, frames, made, s.refs, s.numRefs, s.extra);
      InvariantFrom(g, base0, base1, isField, frames, made, s);
      while !s.verified && !s.error
        invariant Invariant(g, base0, base1, isField, frames, made, s)
        decreases PassBound(g, base0) - |frames|, if s.error then 0 else 1
      {
        var ok, t;
        ghost var longer, more;
        ok, t, longer, more := Pass(g, s, base0, base1, isField, frames, made);
        if !ok {
          Concluded(g, base0, base1, isField, frames, made, s);
          verdict, refList, numRefs := IndexOutOfRange, s.refs, s.numRefs;
          return;
        }
        WithinBound(g, base0, base1, isField, longer, more, t);
        s, frames, made := t, longer, more;
      }
      Concluded(g, base0, base1, isField, frames, made, s);
      verdict, refList, numRefs := if s.verified then Verified else Invalid, s.refs, s.numRefs;
    }

    lemma WithinBound(g: Structure, base0: seq<Entry>, base1: seq<Entry>, isField: bool, frames: seq<Frame>,
                      made: seq<nat>, s: Locals)
      requires g.Valid(base0) && Invariant(g, base0, base1, isField, frames, made, s)
      ensures |frames| <= PassBound(g, base0)
    {
    }

    lemma Concluded(g: Structure, base0: seq<Entry>, base1: seq<Entry>, isField: bool, frames: seq<Frame>,
                    made: seq<nat>, s: Locals)
      requires Invariant(g, base0, base1, isField, frames, made, s)
      ensures State(g, base0, base1, isField, frames, made, s.refs, s.numRefs, |made|)
      ensures g.Valid(base0) && g.Valid(base1) && |frames| <= PassBound(g, base0)
      ensures EntriesMade(g, base0, base1, rplList0, rplList1, frames, made)
      ensures s.verified ==> Explained(g, base0, base1, frames, |made|, Verified, s.refs, s.numRefs)
      ensures s.error ==> Explained(g, base0, base1, frames, |made|, Invalid, s.refs, s.numRefs)
    {
      StateSizes(g, base0, base1, isField, frames, made, s.refs, s.numRefs, s.extra);
      StateEntries(g, base0, base1, isField, frames, made, s.refs, s.numRefs, s.extra);
      hide State, Flags, FoundError, Seen, Missing, SameBase, EntriesMade;
      if s.verified {
        AllSeen(g, base0, frames, s.isOK, s.numOK);
      }
    }

    lemma StateEntries(g: Structure, base0: seq<Entry>, base1: seq<Entry>, isField: bool, frames: seq<Frame>,
                       made: seq<nat>, refs: seq<int>, numRefs: nat, extra: nat)
      requires g.Valid(base0) && g.Valid(base1)
      requires State(g, base0, base1, isField, frames, made, refs, numRefs, extra)
      ensures EntriesMade(g, base0, base1, rplList0, rplList1, frames, made)
    {
      hide Run, Extras, EntriesMade, SameBase;
      CreatedEntriesAreLimited(g, base0, base1, rplList0, rplList1, frames, made);
    }

    lemma InitialState(g: Structure, isField: bool)
      requires 0 < g.size <= MAX_GOP && g.gm > 0 && |rplList0| == |rplList1| == MAX_GOP
      ensures State(g, rplList0, rplList1, isField, [], [], InitialRefs(isField), if isField then 2 else 1, 0)
    {
    }

    lemma StateSizes(g: Structure, base0: seq<Entry>, base1: seq<Entry>, isField: bool, frames: seq<Frame>,
                     made: seq<nat>, refs: seq<int>, numRefs: nat, extra: nat)
      requires State(g, base0, base1, isField, frames, made, refs, numRefs, extra)
      ensures Valid(g, base0, base1) && extra == |made|
      ensures g.Valid(base0) && g.Valid(base1) && g.size <= MAX_GOP
      ensures |rplList0| == |rplList1| == |base0| == |base1| == MAX_GOP
      ensures SameBase(g, base0, rplList0) && SameBase(g, base1, rplList1)
    {
    }
  }

  lemma PlainAt(a: seq<Entry>, b: seq<Entry>, at: nat, e: Entry)
    requires Replaced(a, b, at, e) && at < |a|
    ensures at < |b| && Plain(b[at]) == Plain(e)
  {
  }

  lemma NotConfigured(g: Structure, base0: seq<Entry>, base1: seq<Entry>, list0: seq<Entry>, list1: seq<Entry>,
                      frames: seq<Frame>)
    requires g.Valid(base0) && g.Valid(base1) && SameBase(g, base0, list0) && SameBase(g, base1, list1)
    requires list0[|frames| % g.size].poc < 0 || list1[|frames| % g.size].poc < 0
    ensures FoundError(g, base0, base1, frames)
  {
  }

  lemma AllSeen(g: Structure, list0: seq<Entry>, frames: seq<Frame>, isOK: seq<bool>, numOK: nat)
    requires g.Valid(list0) && Flags(g, list0, frames, isOK, numOK) && numOK == g.size
    ensures forall k :: 0 <= k < g.size ==> Seen(g, list0, frames, k)
    ensures forall p :: 0 <= p < |frames| ==> !Missing(g, list0, frames, p)
  {
    hide Seen, Missing, Rounds;
    forall k | 0 <= k < g.size
      ensures isOK[k]
    {
      assert isOK[k] == isOK[..g.size][k];
    }
  }

  lemma ExtraKeepsBase(g: Structure, base: seq<Entry>, list: seq<Entry>, at: nat, e: Entry)
    requires SameBase(g, base, list) && g.size <= at < |list|
    ensures SameBase(g, base, list[at := e])
  {
  }

  // ---- what the run guarantees ----

  lemma {:induction false} RunFrame(g: Structure, list0: seq<Entry>, list1: seq<Entry>, isField: bool,
                                    frames: seq<Frame>,
                                    refs: seq<int>, numRefs: nat, p: nat)
    requires g.Valid(list0) && g.Valid(list1) && Run(g, list0, list1, isField, frames, refs, numRefs) && p < |frames|
    ensures FrameOk(g, list0, list1, p, frames[p])
  {
    hide FrameOk, Leaves, InitialRefs;
    var last := |frames| - 1;
    if p < last {
      RunFrame(g, list0, list1, isField, frames[..last], frames[last].refs, frames[last].numRefs, p);
      assert frames[..last][p] == frames[p];
    }
  }

  /** Every entry a run creates refers forward of picture 0 in both lists, without new duplicates. */
  lemma CreatedEntriesReferForward(g: Structure, base0: seq<Entry>, base1: seq<Entry>, isField: bool, list0: seq<Entry>,
                                   list1: seq<Entry>, frames: seq<Frame>, made: seq<nat>, refs: seq<int>,
                                   numRefs: nat, e: nat)
    requires g.Valid(base0) && g.Valid(base1) && Run(g, base0, base1, isField, frames, refs, numRefs)
    requires Extras(g, base0, base1, list0, list1, frames, made) && e < |made|
    ensures var p, d0, d1 := made[e], list0[g.size + e].deltas, list1[g.size + e].deltas;
            && p < |frames| && Completed(g, base0, base1, p, frames[p].refs) == Lists(d0, d1)
            && Improves(g, base0, p, PassPoc(g, base0, p), frames[p].refs, d0)
            && Improves(g, base1, p, PassPoc(g, base0, p), frames[p].refs, d1)
  {
    hide Completed, Improves, PassPoc, Run, Present;
    var p := made[e];
    RunFrame(g, base0, base1, isField, frames, refs, numRefs, p);
    assert Plain(list0[g.size + e]).deltas == frames[p].deltas0 && Plain(list1[g.size + e]).deltas == frames[p].deltas1;
    CompletedRefersForward(g, base0, base1, p, frames[p].refs);
  }

  lemma {:induction false} AddNewMembers(refs: seq<int>, deltas: seq<int>, poc: int, x: int)
    ensures x in AddNew(refs, deltas, poc) <==> x in refs || (x >= 0 && poc - x in deltas)
    decreases deltas
  {
    if deltas != [] {
      var p := poc - deltas[0];
      AddNewMembers(if p >= 0 && p !in refs then refs + [p] else refs, deltas[1..], poc, x);
      assert poc - x in deltas <==> poc - x == deltas[0] || poc - x in deltas[1..];
    }
  }

  lemma {:induction false} PicturesMembers(deltas: seq<int>, poc: int, x: int)
    ensures x in Pictures(deltas, poc) <==> poc - x in deltas
  {
    if deltas != [] {
      PicturesMembers(deltas[1..], poc, x);
      assert poc - x in deltas <==> poc - x == deltas[0] || poc - x in deltas[1..];
    }
  }

  /** After a frame, exactly its references from picture 0 on and the frame itself are available. List 1
      is taken on trust: a picture it names becomes available even if it never was. */
  lemma AvailableAfter(deltas0: seq<int>, deltas1: seq<int>, poc: int, x: int)
    ensures x in NextReferences(deltas0, deltas1, poc) <==>
      x == poc || (x >= 0 && (poc - x in deltas0 || poc - x in deltas1))
  {
    var first := Pictures(Kept(deltas0, poc), poc);
    PicturesMembers(Kept(deltas0, poc), poc, x);
    AddNewMembers(first, deltas1, poc, x);
  }
}

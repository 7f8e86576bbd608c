/** One patch from the rebased base to the new rows.

    `RebaseTheorem` reaches the new rows in two steps.  Here the two are composed: an edit of the
    first step that no edit of the second touches stands alone, and edits that touch grow into
    one.  `OnePatch` and `UntouchedKeepsRows` are the results: the composed patch is made of the
    unreviewed and the conflicting user edits and of nothing else, and an unreviewed edit no user
    edit touches is in it with its very rows. */
module Composing {
  import opened Prelude
  import opened Patches
  import opened Rebase

  /** The composition from `i`, `j` and `k` in the three sequences on. */
  function Compose(ps: seq<Edit>, qs: seq<Edit>, i: int, j: int, k: int): seq<Edit>
    decreases |ps| + |qs|, 0
  {
    if ps == [] && qs == [] then []
    else if ps != [] && (qs == [] || After(qs[0], ps[0])) then
      [ps[0].ShiftNew(k - j)]
      + Compose(ps[1..], qs, ps[0].oldEnd, ps[0].newEnd, ps[0].newEnd + k - j)
    else if qs != [] && (ps == [] || Before(qs[0], ps[0])) then
      [qs[0].ShiftOld(i - j)]
      + Compose(ps, qs[1..], qs[0].oldEnd + i - j, qs[0].oldEnd, qs[0].newEnd)
    else
      var s := Min(ps[0].newStart, qs[0].oldStart);
      Grow(ps[1..], qs[1..], ps[0], qs[0], s + i - j, s + k - j)
  }

  /** An edit that started at `sb` and `sn` and has taken in `u` and `v` last: it grows for as
      long as the next edit on either side touches the last one on the other. */
  function Grow(ps: seq<Edit>, qs: seq<Edit>, u: Edit, v: Edit, sb: int, sn: int): seq<Edit>
    decreases |ps| + |qs|, 1
  {
    if qs != [] && Conflict(qs[0], u) then Grow(ps, qs[1..], u, qs[0], sb, sn)
    else if ps != [] && Conflict(v, ps[0]) then Grow(ps[1..], qs, ps[0], v, sb, sn)
    else
      var e := Max(u.newEnd, v.oldEnd);
      var x, y := e - u.newEnd + u.oldEnd, e - v.oldEnd + v.newEnd;
      [Edit(sb, x, sn, y)] + Compose(ps, qs, x, e, y)
  }

  // ----- the composition turns the first sequence into the last

  /** A stretch neither side edits. */
  lemma SharedGap<T>(b: seq<T>, m: seq<T>, n: seq<T>, ps: seq<Edit>, qs: seq<Edit>,
                     i: int, j: int, k: int, s: int)
    requires Aligned(b, m, ps, i, j) && Aligned(m, n, qs, j, k)
    requires j <= s <= |m|
    requires (ps == [] || s <= ps[0].newStart) && (qs == [] || s <= qs[0].oldStart)
    ensures 0 <= i <= s + i - j <= |b| && 0 <= j && 0 <= k <= s + k - j <= |n|
    ensures b[i..s + i - j] == m[j..s] == n[k..s + k - j]
    ensures Aligned(b, m, ps, s + i - j, s) && Aligned(m, n, qs, s, s + k - j)
  {
    hide Aligned;
    GapLength(b, m, ps, i, j);
    AlignedForward(b, m, ps, i, j, s - j);
    AlignedForward(m, n, qs, j, k, s - j);
    AlignedIn(b, m, ps, i, j);
    AlignedIn(b, m, ps, s + i - j, s);
    AlignedIn(m, n, qs, s, s + k - j);
    AlignedIn(m, n, qs, j, k);
  }

  lemma ComposeFirst(ps: seq<Edit>, qs: seq<Edit>, i: int, j: int, k: int)
    requires ps != [] && (qs == [] || After(qs[0], ps[0]))
    ensures Compose(ps, qs, i, j, k) ==
            [ps[0].ShiftNew(k - j)]
            + Compose(ps[1..], qs, ps[0].oldEnd, ps[0].newEnd, ps[0].newEnd + k - j)
  {
  }

  lemma ComposeSecond(ps: seq<Edit>, qs: seq<Edit>, i: int, j: int, k: int)
    requires qs != [] && (ps == [] || (Before(qs[0], ps[0]) && !After(qs[0], ps[0])))
    ensures Compose(ps, qs, i, j, k) ==
            [qs[0].ShiftOld(i - j)]
            + Compose(ps, qs[1..], qs[0].oldEnd + i - j, qs[0].oldEnd, qs[0].newEnd)
  {
  }

  lemma ComposeBoth(ps: seq<Edit>, qs: seq<Edit>, i: int, j: int, k: int)
    requires ps != [] && qs != [] && Conflict(qs[0], ps[0])
    ensures var s := Min(ps[0].newStart, qs[0].oldStart);
            Compose(ps, qs, i, j, k) == Grow(ps[1..], qs[1..], ps[0], qs[0], s + i - j, s + k - j)
  {
  }

  lemma GrowDone(ps: seq<Edit>, qs: seq<Edit>, u: Edit, v: Edit, sb: int, sn: int)
    requires (qs == [] || !Conflict(qs[0], u)) && (ps == [] || !Conflict(v, ps[0]))
    ensures var e := Max(u.newEnd, v.oldEnd);
            var x, y := e - u.newEnd + u.oldEnd, e - v.oldEnd + v.newEnd;
            Grow(ps, qs, u, v, sb, sn) == [Edit(sb, x, sn, y)] + Compose(ps, qs, x, e, y)
  {
  }

  lemma FirstAligned<T>(b: seq<T>, m: seq<T>, n: seq<T>, ps: seq<Edit>, qs: seq<Edit>,
                        i: int, j: int, k: int)
    requires Aligned(b, m, ps, i, j) && Aligned(m, n, qs, j, k)
    requires ps != [] && (qs == [] || After(qs[0], ps[0]))
    ensures var u := ps[0];
            var w := u.ShiftNew(k - j);
            && Aligned(b, m, ps[1..], u.oldEnd, u.newEnd) && Aligned(m, n, qs, u.newEnd, w.newEnd)
            && w.Within(b, n) && u.Within(b, m) && 0 <= i <= w.oldStart && 0 <= k <= w.newStart
            && b[i..w.oldStart] == n[k..w.newStart]
            && n[w.newStart..w.newEnd] == m[u.newStart..u.newEnd]
            && w == Edit(u.oldStart, u.oldEnd, u.newStart + k - j, u.newEnd + k - j)
  {
    hide Aligned;
    var u := ps[0];
    AlignedIn(b, m, ps, i, j);
    AlignedIn(m, n, qs, j, k);
    GapLength(b, m, ps, i, j);
    SharedGap(b, m, n, ps, qs, i, j, k, u.newStart);
    AlignedForward(m, n, qs, u.newStart, u.newStart + k - j, u.newEnd - u.newStart);
    AlignedIn(m, n, qs, u.newEnd, u.newEnd + k - j);
  }

  lemma SecondAligned<T>(b: seq<T>, m: seq<T>, n: seq<T>, ps: seq<Edit>, qs: seq<Edit>,
                         i: int, j: int, k: int)
    requires Aligned(b, m, ps, i, j) && Aligned(m, n, qs, j, k)
    requires qs != [] && (ps == [] || Before(qs[0], ps[0]))
    ensures var v := qs[0];
            var w := v.ShiftOld(i - j);
            && Aligned(b, m, ps, w.oldEnd, v.oldEnd) && Aligned(m, n, qs[1..], v.oldEnd, v.newEnd)
            && w.Within(b, n) && v.Within(m, n) && 0 <= i <= w.oldStart && 0 <= k <= w.newStart
            && b[i..w.oldStart] == n[k..w.newStart]
            && w == Edit(v.oldStart + i - j, v.oldEnd + i - j, v.newStart, v.newEnd)
  {
    hide Aligned;
    var v := qs[0];
    AlignedIn(b, m, ps, i, j);
    AlignedIn(m, n, qs, j, k);
    GapLength(m, n, qs, j, k);
    SharedGap(b, m, n, ps, qs, i, j, k, v.oldStart);
    GapLength(b, m, ps, i, j);
    AlignedForward(b, m, ps, v.oldStart + i - j, v.oldStart, v.oldEnd - v.oldStart);
    AlignedIn(b, m, ps, v.oldEnd + i - j, v.oldEnd);
  }

  /** The composition theorem. */
  lemma {:induction false} ComposeAligned<T>(
      b: seq<T>, m: seq<T>, n: seq<T>, ps: seq<Edit>, qs: seq<Edit>, i: int, j: int, k: int)
    requires Aligned(b, m, ps, i, j) && Aligned(m, n, qs, j, k)
    ensures Aligned(b, n, Compose(ps, qs, i, j, k), i, k)
    decreases |ps| + |qs|, 0
  {
    hide *;
    if ps == [] && qs == [] {
      ComposeNothing(b, m, n, ps, qs, i, j, k);
    } else if ps != [] && (qs == [] || After(qs[0], ps[0])) {
      var w := ps[0].ShiftNew(k - j);
      FirstAligned(b, m, n, ps, qs, i, j, k);
      ComposeFirst(ps, qs, i, j, k);
      ComposeAligned(b, m, n, ps[1..], qs, ps[0].oldEnd, ps[0].newEnd, w.newEnd);
      AlignedCons(b, n, w, Compose(ps[1..], qs, ps[0].oldEnd, ps[0].newEnd, w.newEnd), i, k);
    } else if qs != [] && (ps == [] || Before(qs[0], ps[0])) {
      var w := qs[0].ShiftOld(i - j);
      SecondAligned(b, m, n, ps, qs, i, j, k);
      ComposeSecond(ps, qs, i, j, k);
      ComposeAligned(b, m, n, ps, qs[1..], w.oldEnd, qs[0].oldEnd, qs[0].newEnd);
      AlignedCons(b, n, w, Compose(ps, qs[1..], w.oldEnd, qs[0].oldEnd, qs[0].newEnd), i, k);
    } else {
      ConflictIs(qs[0], ps[0]);
      ComposeBoth(ps, qs, i, j, k);
      var s := StartOfBoth(b, m, n, ps, qs, i, j, k);
      GrowAligned(b, m, n, ps[1..], qs[1..], ps[0], qs[0], s + i - j, s + k - j);
      AlignedBack(b, n, Compose(ps, qs, i, j, k), s + i - j, s + k - j, i, k);
    }
  }

  lemma ConflictIs(v: Edit, u: Edit)
    ensures Conflict(v, u) <==> !Before(v, u) && !After(v, u)
  {
  }

  lemma ComposeNothing<T>(b: seq<T>, m: seq<T>, n: seq<T>, ps: seq<Edit>, qs: seq<Edit>,
                          i: int, j: int, k: int)
    requires Aligned(b, m, ps, i, j) && Aligned(m, n, qs, j, k) && ps == [] && qs == []
    ensures Compose(ps, qs, i, j, k) == [] && Aligned(b, n, [], i, k)
  {
  }

  lemma StartOfBoth<T>(b: seq<T>, m: seq<T>, n: seq<T>, ps: seq<Edit>, qs: seq<Edit>,
                       i: int, j: int, k: int) returns (s: int)
    requires Aligned(b, m, ps, i, j) && Aligned(m, n, qs, j, k) && ps != [] && qs != []
    ensures s == Min(ps[0].newStart, qs[0].oldStart)
    ensures 0 <= i <= s + i - j <= |b| && 0 <= k <= s + k - j <= |n|
    ensures b[i..s + i - j] == n[k..s + k - j]
    ensures ps[0].Within(b, m) && qs[0].Within(m, n)
    ensures s + i - j <= ps[0].oldEnd && s + k - j <= qs[0].newEnd
    ensures ps[0].oldStart - i == ps[0].newStart - j && qs[0].oldStart - j == qs[0].newStart - k
    ensures Aligned(b, m, ps[1..], ps[0].oldEnd, ps[0].newEnd)
    ensures Aligned(m, n, qs[1..], qs[0].oldEnd, qs[0].newEnd)
  {
    s := Min(ps[0].newStart, qs[0].oldStart);
    AlignedIn(b, m, ps, i, j);
    AlignedIn(m, n, qs, j, k);
    GapLength(b, m, ps, i, j);
    GapLength(m, n, qs, j, k);
    SharedGap(b, m, n, ps, qs, i, j, k, s);
  }

  lemma {:induction false} GrowAligned<T>(
      b: seq<T>, m: seq<T>, n: seq<T>, ps: seq<Edit>, qs: seq<Edit>, u: Edit, v: Edit,
      sb: int, sn: int)
    requires u.Within(b, m) && v.Within(m, n) && Conflict(v, u)
    requires Aligned(b, m, ps, u.oldEnd, u.newEnd) && Aligned(m, n, qs, v.oldEnd, v.newEnd)
    requires 0 <= sb <= u.oldEnd && 0 <= sn <= v.newEnd
    ensures Aligned(b, n, Grow(ps, qs, u, v, sb, sn), sb, sn)
    decreases |ps| + |qs|, 1
  {
    hide *;
    if qs != [] && Conflict(qs[0], u) {
      GrowSecond(ps, qs, u, v, sb, sn);
      AlignedIn(m, n, qs, v.oldEnd, v.newEnd);
      WithinMeans(m, n, qs[0]);
      GrowAligned(b, m, n, ps, qs[1..], u, qs[0], sb, sn);
    } else if ps != [] && Conflict(v, ps[0]) {
      GrowFirst(ps, qs, u, v, sb, sn);
      AlignedIn(b, m, ps, u.oldEnd, u.newEnd);
      WithinMeans(b, m, ps[0]);
      GrowAligned(b, m, n, ps[1..], qs, ps[0], v, sb, sn);
    } else {
      GrowDone(ps, qs, u, v, sb, sn);
      var e, x, y := EndOfBoth(b, m, n, ps, qs, u, v);
      ComposeAligned(b, m, n, ps, qs, x, e, y);
      GrownEdit(b, n, sb, x, sn, y);
      AlignedCons(b, n, Edit(sb, x, sn, y), Compose(ps, qs, x, e, y), sb, sn);
    }
  }

  lemma GrowSecond(ps: seq<Edit>, qs: seq<Edit>, u: Edit, v: Edit, sb: int, sn: int)
    requires qs != [] && Conflict(qs[0], u)
    ensures Grow(ps, qs, u, v, sb, sn) == Grow(ps, qs[1..], u, qs[0], sb, sn)
  {
  }

  lemma GrowFirst(ps: seq<Edit>, qs: seq<Edit>, u: Edit, v: Edit, sb: int, sn: int)
    requires (qs == [] || !Conflict(qs[0], u)) && ps != [] && Conflict(v, ps[0])
    ensures Grow(ps, qs, u, v, sb, sn) == Grow(ps[1..], qs, ps[0], v, sb, sn)
  {
  }

  lemma WithinMeans<T>(b: seq<T>, s: seq<T>, e: Edit)
    requires e.Within(b, s)
    ensures 0 <= e.oldStart <= e.oldEnd <= |b| && 0 <= e.newStart <= e.newEnd <= |s|
  {
  }

  lemma GrownEdit<T>(b: seq<T>, n: seq<T>, sb: int, x: int, sn: int, y: int)
    requires 0 <= sb <= x <= |b| && 0 <= sn <= y <= |n|
    ensures Edit(sb, x, sn, y).Within(b, n) && b[sb..sb] == n[sn..sn]
  {
  }

  /** Where a grown edit ends, the next edits on both sides have not begun. */
  lemma EndOfBoth<T>(b: seq<T>, m: seq<T>, n: seq<T>, ps: seq<Edit>, qs: seq<Edit>,
                     u: Edit, v: Edit) returns (e: int, x: int, y: int)
    requires u.Within(b, m) && v.Within(m, n) && Conflict(v, u)
    requires Aligned(b, m, ps, u.oldEnd, u.newEnd) && Aligned(m, n, qs, v.oldEnd, v.newEnd)
    requires (qs == [] || !Conflict(qs[0], u)) && (ps == [] || !Conflict(v, ps[0]))
    ensures e == Max(u.newEnd, v.oldEnd)
    ensures x == e - u.newEnd + u.oldEnd && y == e - v.oldEnd + v.newEnd
    ensures u.oldEnd <= x <= |b| && v.newEnd <= y <= |n|
    ensures x == u.oldEnd || y == v.newEnd
    ensures Aligned(b, m, ps, x, e) && Aligned(m, n, qs, e, y)
  {
    hide Aligned;
    e := Max(u.newEnd, v.oldEnd);
    x, y := e - u.newEnd + u.oldEnd, e - v.oldEnd + v.newEnd;
    AlignedIn(b, m, ps, u.oldEnd, u.newEnd);
    AlignedIn(m, n, qs, v.oldEnd, v.newEnd);
    GapLength(b, m, ps, u.oldEnd, u.newEnd);
    AlignedForward(b, m, ps, u.oldEnd, u.newEnd, e - u.newEnd);
    AlignedForward(m, n, qs, v.oldEnd, v.newEnd, e - v.oldEnd);
    AlignedIn(b, m, ps, x, e);
    AlignedIn(m, n, qs, e, y);
  }

  // ----- where the composed edits come from

  /** The edits of the two patches that make up one composed edit. */
  datatype Group = Group(us: seq<Edit>, vs: seq<Edit>)

  function Last(es: seq<Edit>): Edit
    requires es != []
  {
    es[|es| - 1]
  }

  /** The two patches cut into groups, along the composition. */
  function Groups(ps: seq<Edit>, qs: seq<Edit>): seq<Group>
    decreases |ps| + |qs|, 0
  {
    if ps == [] && qs == [] then []
    else if ps != [] && (qs == [] || After(qs[0], ps[0])) then
      [Group([ps[0]], [])] + Groups(ps[1..], qs)
    else if qs != [] && (ps == [] || Before(qs[0], ps[0])) then
      [Group([], [qs[0]])] + Groups(ps, qs[1..])
    else GrowGroup(ps[1..], qs[1..], [ps[0]], [qs[0]])
  }

  function GrowGroup(ps: seq<Edit>, qs: seq<Edit>, us: seq<Edit>, vs: seq<Edit>): seq<Group>
    requires us != [] && vs != []
    decreases |ps| + |qs|, 1
  {
    if qs != [] && Conflict(qs[0], Last(us)) then GrowGroup(ps, qs[1..], us, vs + [qs[0]])
    else if ps != [] && Conflict(Last(vs), ps[0]) then GrowGroup(ps[1..], qs, us + [ps[0]], vs)
    else [Group(us, vs)] + Groups(ps, qs)
  }

  function AllUs(gs: seq<Group>): seq<Edit> {
    if gs == [] then [] else gs[0].us + AllUs(gs[1..])
  }

  function AllVs(gs: seq<Group>): seq<Edit> {
    if gs == [] then [] else gs[0].vs + AllVs(gs[1..])
  }

  /** A chain: the last two edits touch, and so on with one of them left off. */
  ghost predicate Linked(us: seq<Edit>, vs: seq<Edit>)
    decreases |us| + |vs|
  {
    us != [] && vs != [] && Conflict(Last(vs), Last(us)) &&
    (|us| == |vs| == 1
     || (|us| > 1 && Linked(us[..|us| - 1], vs))
     || (|vs| > 1 && Linked(us, vs[..|vs| - 1])))
  }

  /** An edit alone, or a chain. */
  ghost predicate Whole(g: Group) {
    (|g.us| == 1 && g.vs == []) || (g.us == [] && |g.vs| == 1) || Linked(g.us, g.vs)
  }

  /** Where a group starts and ends in the middle sequence. */
  function From(g: Group): int
    requires g.us != [] || g.vs != []
  {
    if g.vs == [] then g.us[0].newStart
    else if g.us == [] then g.vs[0].oldStart
    else Min(g.us[0].newStart, g.vs[0].oldStart)
  }

  function To(g: Group): int
    requires g.us != [] || g.vs != []
  {
    if g.vs == [] then Last(g.us).newEnd
    else if g.us == [] then Last(g.vs).oldEnd
    else Max(Last(g.us).newEnd, Last(g.vs).oldEnd)
  }

  /** The composed edit reaches from where the group starts to where it ends, on both sides. */
  ghost predicate Spans(w: Edit, g: Group) {
    && (g.us != [] ==>
          && w.oldStart == g.us[0].oldStart + From(g) - g.us[0].newStart
          && w.oldEnd == Last(g.us).oldEnd + To(g) - Last(g.us).newEnd)
    && (g.vs != [] ==>
          && w.newStart == g.vs[0].newStart + From(g) - g.vs[0].oldStart
          && w.newEnd == Last(g.vs).newEnd + To(g) - Last(g.vs).oldEnd)
    && (g.us == [] && g.vs != [] ==> w.oldEnd - w.oldStart == To(g) - From(g))
    && (g.vs == [] && g.us != [] ==> w.newEnd - w.newStart == To(g) - From(g))
  }

  lemma GroupsFirst(ps: seq<Edit>, qs: seq<Edit>)
    requires ps != [] && (qs == [] || After(qs[0], ps[0]))
    ensures Groups(ps, qs) == [Group([ps[0]], [])] + Groups(ps[1..], qs)
  {
  }

  lemma GroupsSecond(ps: seq<Edit>, qs: seq<Edit>)
    requires qs != [] && (ps == [] || (Before(qs[0], ps[0]) && !After(qs[0], ps[0])))
    ensures Groups(ps, qs) == [Group([], [qs[0]])] + Groups(ps, qs[1..])
  {
  }

  lemma GroupsBoth(ps: seq<Edit>, qs: seq<Edit>)
    requires ps != [] && qs != [] && Conflict(qs[0], ps[0])
    ensures Groups(ps, qs) == GrowGroup(ps[1..], qs[1..], [ps[0]], [qs[0]])
  {
  }

  lemma GroupsNothing()
    ensures Groups([], []) == [] && AllUs([]) == [] && AllVs([]) == []
  {
  }

  lemma GroupGrows(ps: seq<Edit>, qs: seq<Edit>, us: seq<Edit>, vs: seq<Edit>)
    requires us != [] && vs != []
    ensures GrowGroup(ps, qs, us, vs) ==
            if qs != [] && Conflict(qs[0], Last(us)) then GrowGroup(ps, qs[1..], us, vs + [qs[0]])
            else if ps != [] && Conflict(Last(vs), ps[0]) then GrowGroup(ps[1..], qs, us + [ps[0]], vs)
            else [Group(us, vs)] + Groups(ps, qs)
  {
    hide Conflict;
  }

  lemma LastOf(es: seq<Edit>, e: Edit)
    ensures Last(es + [e]) == e && (es + [e])[..|es|] == es
    ensures es != [] ==> (es + [e])[0] == es[0]
  {
  }

  lemma LinkedGrows(us: seq<Edit>, vs: seq<Edit>, e: Edit)
    requires Linked(us, vs)
    ensures Conflict(e, Last(us)) ==> Linked(us, vs + [e])
    ensures Conflict(Last(vs), e) ==> Linked(us + [e], vs)
  {
    hide Conflict;
    LastOf(us, e);
    LastOf(vs, e);
  }

  lemma LinkedPair(u: Edit, v: Edit)
    requires Conflict(v, u)
    ensures Linked([u], [v])
  {
  }

  lemma AllCons(g: Group, gs: seq<Group>)
    ensures AllUs([g] + gs) == g.us + AllUs(gs) && AllVs([g] + gs) == g.vs + AllVs(gs)
  {
    assert ([g] + gs)[1..] == gs;
  }

  ghost predicate AllWhole(gs: seq<Group>) {
    forall r :: 0 <= r < |gs| ==> Whole(gs[r])
  }

  lemma WholeCons(g: Group, gs: seq<Group>)
    requires Whole(g) && AllWhole(gs)
    ensures AllWhole([g] + gs)
  {
    hide Whole;
  }

  lemma WholeIs(g: Group)
    ensures (|g.us| == 1 && g.vs == []) || (g.us == [] && |g.vs| == 1) || Linked(g.us, g.vs) ==> Whole(g)
  {
  }

  /** The groups share out the edits of both patches, in order, and each is one edit alone or a
      chain of edits that touch. */
  lemma {:induction false} GroupsShareOut(ps: seq<Edit>, qs: seq<Edit>)
    ensures AllUs(Groups(ps, qs)) == ps && AllVs(Groups(ps, qs)) == qs
    ensures AllWhole(Groups(ps, qs))
    decreases |ps| + |qs|, 0
  {
    hide *;
    if ps == [] && qs == [] {
      GroupsNothing();
      NoneWhole();
    } else if ps != [] && (qs == [] || After(qs[0], ps[0])) {
      var g, gs := Group([ps[0]], []), Groups(ps[1..], qs);
      GroupsFirst(ps, qs);
      GroupsShareOut(ps[1..], qs);
      AllCons(g, gs);
      WholeIs(g);
      WholeCons(g, gs);
      assert [ps[0]] + ps[1..] == ps && [] + qs == qs;
    } else if qs != [] && (ps == [] || Before(qs[0], ps[0])) {
      var g, gs := Group([], [qs[0]]), Groups(ps, qs[1..]);
      GroupsSecond(ps, qs);
      GroupsShareOut(ps, qs[1..]);
      AllCons(g, gs);
      WholeIs(g);
      WholeCons(g, gs);
      assert [qs[0]] + qs[1..] == qs && [] + ps == ps;
    } else {
      ConflictIs(qs[0], ps[0]);
      GroupsBoth(ps, qs);
      LinkedPair(ps[0], qs[0]);
      GrowSharesOut(ps[1..], qs[1..], [ps[0]], [qs[0]]);
      assert [ps[0]] + ps[1..] == ps && [qs[0]] + qs[1..] == qs;
    }
  }

  lemma NoneWhole()
    ensures AllWhole([])
  {
  }

  lemma {:induction false} GrowSharesOut(ps: seq<Edit>, qs: seq<Edit>, us: seq<Edit>, vs: seq<Edit>)
    requires us != [] && vs != [] && Linked(us, vs)
    ensures AllUs(GrowGroup(ps, qs, us, vs)) == us + ps && AllVs(GrowGroup(ps, qs, us, vs)) == vs + qs
    ensures AllWhole(GrowGroup(ps, qs, us, vs))
    decreases |ps| + |qs|, 1
  {
    hide *;
    GroupGrows(ps, qs, us, vs);
    if qs != [] && Conflict(qs[0], Last(us)) {
      LinkedGrows(us, vs, qs[0]);
      GrowSharesOut(ps, qs[1..], us, vs + [qs[0]]);
      assert vs + [qs[0]] + qs[1..] == vs + qs;
    } else if ps != [] && Conflict(Last(vs), ps[0]) {
      LinkedGrows(us, vs, ps[0]);
      GrowSharesOut(ps[1..], qs, us + [ps[0]], vs);
      assert us + [ps[0]] + ps[1..] == us + ps;
    } else {
      var g, gs := Group(us, vs), Groups(ps, qs);
      GroupsShareOut(ps, qs);
      AllCons(g, gs);
      WholeIs(g);
      WholeCons(g, gs);
    }
  }

  // ----- the composed edits are the groups

  ghost predicate AllSpan(ws: seq<Edit>, gs: seq<Group>) {
    |ws| == |gs| && forall r :: 0 <= r < |gs| ==> Spans(ws[r], gs[r])
  }

  lemma SpanCons(w: Edit, ws: seq<Edit>, g: Group, gs: seq<Group>)
    requires Spans(w, g) && AllSpan(ws, gs)
    ensures AllSpan([w] + ws, [g] + gs)
  {
    hide Spans;
  }

  lemma SpanAlone(u: Edit, d: int)
    ensures Spans(u.ShiftNew(d), Group([u], [])) && Spans(u.ShiftOld(d), Group([], [u]))
  {
  }

  lemma SpanBoth(us: seq<Edit>, vs: seq<Edit>, w: Edit)
    requires us != [] && vs != []
    requires var s, e := Min(us[0].newStart, vs[0].oldStart), Max(Last(us).newEnd, Last(vs).oldEnd);
             w == Edit(us[0].oldStart + s - us[0].newStart, e - Last(us).newEnd + Last(us).oldEnd,
                       vs[0].newStart + s - vs[0].oldStart, e - Last(vs).oldEnd + Last(vs).newEnd)
    ensures Spans(w, Group(us, vs))
  {
  }

  /** Each composed edit reaches exactly over its group. */
  lemma {:induction false} ComposeSpans<T>(
      b: seq<T>, m: seq<T>, n: seq<T>, ps: seq<Edit>, qs: seq<Edit>, i: int, j: int, k: int)
    requires Aligned(b, m, ps, i, j) && Aligned(m, n, qs, j, k)
    ensures AllSpan(Compose(ps, qs, i, j, k), Groups(ps, qs))
    decreases |ps| + |qs|, 0
  {
    hide *;
    if ps == [] && qs == [] {
      ComposeNothing(b, m, n, ps, qs, i, j, k);
      GroupsNothing();
      NoneSpan();
    } else if ps != [] && (qs == [] || After(qs[0], ps[0])) {
      FirstAligned(b, m, n, ps, qs, i, j, k);
      ComposeFirst(ps, qs, i, j, k);
      GroupsFirst(ps, qs);
      ComposeSpans(b, m, n, ps[1..], qs, ps[0].oldEnd, ps[0].newEnd, ps[0].newEnd + k - j);
      SpanAlone(ps[0], k - j);
      SpanCons(ps[0].ShiftNew(k - j),
               Compose(ps[1..], qs, ps[0].oldEnd, ps[0].newEnd, ps[0].newEnd + k - j),
               Group([ps[0]], []), Groups(ps[1..], qs));
    } else if qs != [] && (ps == [] || Before(qs[0], ps[0])) {
      SecondAligned(b, m, n, ps, qs, i, j, k);
      ComposeSecond(ps, qs, i, j, k);
      GroupsSecond(ps, qs);
      ComposeSpans(b, m, n, ps, qs[1..], qs[0].oldEnd + i - j, qs[0].oldEnd, qs[0].newEnd);
      SpanAlone(qs[0], i - j);
      SpanCons(qs[0].ShiftOld(i - j),
               Compose(ps, qs[1..], qs[0].oldEnd + i - j, qs[0].oldEnd, qs[0].newEnd),
               Group([], [qs[0]]), Groups(ps, qs[1..]));
    } else {
      ConflictIs(qs[0], ps[0]);
      ComposeBoth(ps, qs, i, j, k);
      GroupsBoth(ps, qs);
      var s := StartOfBoth(b, m, n, ps, qs, i, j, k);
      LastOne(ps[0]);
      LastOne(qs[0]);
      GrowSpans(b, m, n, ps[1..], qs[1..], [ps[0]], [qs[0]], s + i - j, s + k - j);
    }
  }

  lemma LastOne(e: Edit)
    ensures Last([e]) == e
  {
  }

  lemma NoneSpan()
    ensures AllSpan([], [])
  {
  }

  lemma {:induction false} GrowSpans<T>(
      b: seq<T>, m: seq<T>, n: seq<T>, ps: seq<Edit>, qs: seq<Edit>,
      us: seq<Edit>, vs: seq<Edit>, sb: int, sn: int)
    requires us != [] && vs != []
    requires Last(us).Within(b, m) && Last(vs).Within(m, n) && Conflict(Last(vs), Last(us))
    requires Aligned(b, m, ps, Last(us).oldEnd, Last(us).newEnd)
    requires Aligned(m, n, qs, Last(vs).oldEnd, Last(vs).newEnd)
    requires var s := Min(us[0].newStart, vs[0].oldStart);
             sb == us[0].oldStart + s - us[0].newStart && sn == vs[0].newStart + s - vs[0].oldStart
    ensures AllSpan(Grow(ps, qs, Last(us), Last(vs), sb, sn), GrowGroup(ps, qs, us, vs))
    decreases |ps| + |qs|, 1
  {
    hide *;
    var u, v := Last(us), Last(vs);
    GroupGrows(ps, qs, us, vs);
    if qs != [] && Conflict(qs[0], u) {
      GrowSecond(ps, qs, u, v, sb, sn);
      AlignedIn(m, n, qs, v.oldEnd, v.newEnd);
      LastOf(vs, qs[0]);
      GrowSpans(b, m, n, ps, qs[1..], us, vs + [qs[0]], sb, sn);
    } else if ps != [] && Conflict(v, ps[0]) {
      GrowFirst(ps, qs, u, v, sb, sn);
      AlignedIn(b, m, ps, u.oldEnd, u.newEnd);
      LastOf(us, ps[0]);
      GrowSpans(b, m, n, ps[1..], qs, us + [ps[0]], vs, sb, sn);
    } else {
      GrowDone(ps, qs, u, v, sb, sn);
      var e, x, y := EndOfBoth(b, m, n, ps, qs, u, v);
      ComposeSpans(b, m, n, ps, qs, x, e, y);
      SpanBoth(us, vs, Edit(sb, x, sn, y));
      SpanCons(Edit(sb, x, sn, y), Compose(ps, qs, x, e, y), Group(us, vs), Groups(ps, qs));
    }
  }

  // ----- nothing else is covered

  /** The row lies in the closed range of an edit of the group. */
  ghost predicate Covers(g: Group, row: int) {
    || (exists u :: u in g.us && u.newStart <= row <= u.newEnd)
    || (exists v :: v in g.vs && v.oldStart <= row <= v.oldEnd)
  }

  lemma CoversMore(us: seq<Edit>, vs: seq<Edit>, us': seq<Edit>, vs': seq<Edit>, row: int)
    requires Covers(Group(us, vs), row)
    requires (forall u :: u in us ==> u in us') && (forall v :: v in vs ==> v in vs')
    ensures Covers(Group(us', vs'), row)
  {
  }

  lemma CoversLast(us: seq<Edit>, vs: seq<Edit>, row: int)
    requires us != [] && vs != []
    requires Last(us).newStart <= row <= Last(us).newEnd || Last(vs).oldStart <= row <= Last(vs).oldEnd
    ensures Covers(Group(us, vs), row)
  {
    assert Last(us) in us && Last(vs) in vs;
  }

  lemma TouchMeans(v: Edit, u: Edit)
    requires Conflict(v, u)
    ensures v.oldStart <= u.newEnd && u.newStart <= v.oldEnd
  {
  }

  /** A chain leaves no row out between its ends. */
  lemma {:induction false} ChainCovers(us: seq<Edit>, vs: seq<Edit>, row: int)
    requires Linked(us, vs) && From(Group(us, vs)) <= row <= To(Group(us, vs))
    ensures Covers(Group(us, vs), row)
    decreases |us| + |vs|
  {
    hide Covers, Conflict;
    TouchMeans(Last(vs), Last(us));
    if Last(us).newStart <= row <= Last(us).newEnd || Last(vs).oldStart <= row <= Last(vs).oldEnd {
      CoversLast(us, vs, row);
    } else if |us| > 1 && Linked(us[..|us| - 1], vs) {
      ChainCovers(us[..|us| - 1], vs, row);
      CoversMore(us[..|us| - 1], vs, us, vs, row);
    } else if |vs| > 1 && Linked(us, vs[..|vs| - 1]) {
      ChainCovers(us, vs[..|vs| - 1], row);
      CoversMore(us, vs[..|vs| - 1], us, vs, row);
    }
  }

  lemma LinkedNotEmpty(us: seq<Edit>, vs: seq<Edit>)
    ensures Linked(us, vs) ==> us != [] && vs != []
  {
  }

  /** Every row of the middle sequence a group spans lies in one of its edits. */
  lemma GroupCovers(g: Group, row: int)
    requires Whole(g) && From(g) <= row <= To(g)
    ensures Covers(g, row)
  {
    hide Linked;
    LinkedNotEmpty(g.us, g.vs);
    if g.us != [] && g.vs != [] {
      ChainCovers(g.us, g.vs, row);
    } else if g.vs == [] {
      assert g.us[0] in g.us;
    } else {
      assert g.vs[0] in g.vs;
    }
  }

  // ----- an edit nothing touches stands alone

  /** The edit `w` does what `u` did, wherever that has moved to. */
  ghost predicate Carries<T>(w: Edit, u: Edit, m: seq<T>, n: seq<T>) {
    && w.oldStart == u.oldStart && w.oldEnd == u.oldEnd
    && Slice(n, w.newStart, w.newEnd) == Slice(m, u.newStart, u.newEnd)
  }

  ghost predicate TouchedByNone(qs: seq<Edit>, u: Edit) {
    forall c :: 0 <= c < |qs| ==> !Conflict(qs[c], u)
  }

  lemma TouchedMeans(qs: seq<Edit>, u: Edit)
    requires qs != [] && TouchedByNone(qs, u)
    ensures !Conflict(qs[0], u) && TouchedByNone(qs[1..], u)
  {
  }

  lemma FirstCarries<T>(b: seq<T>, m: seq<T>, n: seq<T>, ps: seq<Edit>, qs: seq<Edit>,
                        i: int, j: int, k: int)
    requires Aligned(b, m, ps, i, j) && Aligned(m, n, qs, j, k)
    requires ps != [] && (qs == [] || After(qs[0], ps[0]))
    ensures Carries(ps[0].ShiftNew(k - j), ps[0], m, n)
  {
    hide Aligned;
    FirstAligned(b, m, n, ps, qs, i, j, k);
  }

  lemma {:induction false} UntouchedStays<T>(
      b: seq<T>, m: seq<T>, n: seq<T>, ps: seq<Edit>, qs: seq<Edit>, i: int, j: int, k: int, a: nat)
      returns (w: Edit)
    requires Aligned(b, m, ps, i, j) && Aligned(m, n, qs, j, k)
    requires a < |ps| && TouchedByNone(qs, ps[a])
    ensures w in Compose(ps, qs, i, j, k) && Carries(w, ps[a], m, n)
    decreases |ps| + |qs|, 0
  {
    hide *;
    if qs == [] || After(qs[0], ps[0]) {
      FirstAligned(b, m, n, ps, qs, i, j, k);
      ComposeFirst(ps, qs, i, j, k);
      if a == 0 {
        w := ps[0].ShiftNew(k - j);
        FirstCarries(b, m, n, ps, qs, i, j, k);
      } else {
        assert ps[1..][a - 1] == ps[a];
        w := UntouchedStays(b, m, n, ps[1..], qs, ps[0].oldEnd, ps[0].newEnd,
                            ps[0].newEnd + k - j, a - 1);
      }
    } else if Before(qs[0], ps[0]) {
      SecondAligned(b, m, n, ps, qs, i, j, k);
      ComposeSecond(ps, qs, i, j, k);
      TouchedMeans(qs, ps[a]);
      w := UntouchedStays(b, m, n, ps, qs[1..], qs[0].oldEnd + i - j, qs[0].oldEnd, qs[0].newEnd, a);
    } else {
      ConflictIs(qs[0], ps[0]);
      TouchedMeans(qs, ps[a]);
      ComposeBoth(ps, qs, i, j, k);
      var s := StartOfBoth(b, m, n, ps, qs, i, j, k);
      assert ps[1..][a - 1] == ps[a];
      w := UntouchedStaysOut(b, m, n, ps[1..], qs[1..], ps[0], qs[0], s + i - j, s + k - j, a - 1);
    }
  }

  lemma {:induction false} UntouchedStaysOut<T>(
      b: seq<T>, m: seq<T>, n: seq<T>, ps: seq<Edit>, qs: seq<Edit>, u: Edit, v: Edit,
      sb: int, sn: int, a: nat) returns (w: Edit)
    requires u.Within(b, m) && v.Within(m, n) && Conflict(v, u)
    requires Aligned(b, m, ps, u.oldEnd, u.newEnd) && Aligned(m, n, qs, v.oldEnd, v.newEnd)
    requires a < |ps| && TouchedByNone(qs, ps[a]) && !Conflict(v, ps[a])
    ensures w in Grow(ps, qs, u, v, sb, sn) && Carries(w, ps[a], m, n)
    decreases |ps| + |qs|, 1
  {
    hide *;
    if qs != [] && Conflict(qs[0], u) {
      GrowSecond(ps, qs, u, v, sb, sn);
      AlignedIn(m, n, qs, v.oldEnd, v.newEnd);
      TouchedMeans(qs, ps[a]);
      w := UntouchedStaysOut(b, m, n, ps, qs[1..], u, qs[0], sb, sn, a);
    } else if Conflict(v, ps[0]) {
      GrowFirst(ps, qs, u, v, sb, sn);
      AlignedIn(b, m, ps, u.oldEnd, u.newEnd);
      assert ps[1..][a - 1] == ps[a];
      w := UntouchedStaysOut(b, m, n, ps[1..], qs, ps[0], v, sb, sn, a - 1);
    } else {
      GrowDone(ps, qs, u, v, sb, sn);
      var e, x, y := EndOfBoth(b, m, n, ps, qs, u, v);
      w := UntouchedStays(b, m, n, ps, qs, x, e, y, a);
    }
  }

  /** With nothing to compose with, the patch stays as it is. */
  lemma {:induction false} ComposeWithNone(ps: seq<Edit>, i: int, j: int)
    ensures Compose(ps, [], i, j, j) == ps
    decreases |ps|
  {
    if ps != [] {
      ComposeWithNone(ps[1..], ps[0].oldEnd, ps[0].newEnd);
      ComposeFirst(ps, [], i, j, j);
      assert ps == [ps[0].ShiftNew(0)] + ps[1..];
    }
  }

  // ----- moving keeps apart what was apart

  function Shifted(e: Edit, delta: int): Edit {
    e.ShiftOld(delta).ShiftNew(delta)
  }

  /** Edits left over by a choice do not move before the place the first one had. */
  lemma {:induction false} RestStarts(es: seq<Edit>, chosen: seq<bool>, delta: int, q: nat)
    requires OrderedOld(es) && |chosen| == |es| && q < |Rest(es, chosen, delta)| && es != []
    requires forall t :: 0 <= t < |es| ==> es[t].newStart <= es[t].newEnd
    ensures Rest(es, chosen, delta)[q].oldStart >= es[0].oldStart + delta
    ensures chosen[0] ==> Rest(es, chosen, delta)[q].oldStart > es[0].oldStart + delta
  {
    var e, rest := es[0], es[1..];
    if rest != [] {
      assert es[1] == rest[0] && es[0].oldEnd < es[1].oldStart;
      if chosen[0] {
        RestStarts(rest, chosen[1..], delta + e.Delta(), q);
      } else if q > 0 {
        RestStarts(rest, chosen[1..], delta, q - 1);
      }
    }
  }

  /** An edit of the patch moves as far as everything else here, or changes that start after `x`
      lie before it, and then it still starts after `x`. */
  lemma {:induction false} MovedStarts<T>(
      us: seq<Edit>, cs: seq<Change<T>>, delta: int, size: int, x: int, a: nat)
    requires OrderedNew(us) && a < |us| && Fits(cs, size, x) && (cs == [] || x < cs[0].start)
    ensures var m := Moved(us, cs, delta)[a];
            m == Shifted(us[a], delta) || (x < us[a].newStart && x + delta < m.newStart)
    decreases |us| + |cs|
  {
    if cs != [] && Before(cs[0].Extent(), us[0]) {
      var c := cs[0];
      FitsLower(cs[1..], size, c.end, c.end - 1);
      MovedStarts(us, cs[1..], delta + c.Delta(), size, c.end - 1, a);
      assert us[0].newStart <= us[a].newStart;
    } else if a > 0 {
      assert us[1..][a - 1] == us[a];
      MovedStarts(us[1..], cs, delta, size, x, a - 1);
    }
  }

  lemma RestUnfold(us: seq<Edit>, vs: seq<Edit>, delta: int)
    requires vs != []
    ensures Rest(vs, AllowedMask(us, vs), delta) ==
            if Allowed(us, vs[0]) then Rest(vs[1..], AllowedMask(us, vs[1..]), delta + vs[0].Delta())
            else [vs[0].ShiftOld(delta)] + Rest(vs[1..], AllowedMask(us, vs[1..]), delta)
  {
    assert AllowedMask(us, vs)[1..] == AllowedMask(us, vs[1..]);
    hide Allowed;
  }

  lemma ChangesUnfold<T>(us: seq<Edit>, vs: seq<Edit>, n: seq<T>)
    requires vs != []
    ensures AllowedChanges(us, vs, n) ==
            if Allowed(us, vs[0])
            then [Change(vs[0].oldStart, vs[0].oldEnd, Slice(n, vs[0].newStart, vs[0].newEnd))]
                 + AllowedChanges(us, vs[1..], n)
            else AllowedChanges(us, vs[1..], n)
  {
    hide Allowed;
  }

  lemma MovedUnfold<T>(us: seq<Edit>, c: Change<T>, cs: seq<Change<T>>, delta: int)
    requires us != []
    ensures Moved(us, [c] + cs, delta) ==
            if Before(c.Extent(), us[0]) then Moved(us, cs, delta + c.Delta())
            else [Shifted(us[0], delta)] + Moved(us[1..], [c] + cs, delta)
  {
    assert ([c] + cs)[1..] == cs;
  }

  /** A user edit that is not allowed, against an unreviewed edit it does not touch. */
  lemma FirstStaysApart<T>(us: seq<Edit>, cs: seq<Change<T>>, v: Edit, delta: int, size: int, a: nat)
    requires OrderedNew(us) && a < |us| && !Conflict(v, us[a]) && v.oldStart <= v.oldEnd
    requires Fits(cs, size, v.oldEnd) && (cs == [] || v.oldEnd < cs[0].start)
    ensures !Conflict(v.ShiftOld(delta), Moved(us, cs, delta)[a])
  {
    MovedStarts(us, cs, delta, size, v.oldEnd, a);
    hide Moved;
  }

  /** The changes still to come start after the edit before them ended. */
  lemma ChangesStart<T>(us: seq<Edit>, vs: seq<Edit>, n: seq<T>)
    requires vs != [] && OrderedOld(vs)
    ensures var cs := AllowedChanges(us, vs[1..], n); cs == [] || vs[0].oldEnd < cs[0].start
  {
    if AllowedChanges(us, vs[1..], n) != [] {
      var t := ChangeSource(us, vs[1..], n, 0);
      assert vs[1..][t] == vs[t + 1];
    }
  }

  /** An unreviewed edit no user edit touches is not touched after the moves either. */
  lemma {:induction false} StaysApart<T>(
      all: seq<Edit>, us: seq<Edit>, vs: seq<Edit>, o: seq<T>, n: seq<T>, j: int, k: int,
      delta: int, a: nat, q: nat)
    requires Aligned(o, n, vs, j, k) && OrderedNew(us) && OrderedOld(vs)
    requires Untouched(us, AllowedChanges(all, vs, n))
    requires a < |us| && TouchedByNone(vs, us[a])
    requires q < |Rest(vs, AllowedMask(all, vs), delta)|
    ensures !Conflict(Rest(vs, AllowedMask(all, vs), delta)[q],
                      Moved(us, AllowedChanges(all, vs, n), delta)[a])
    decreases |us| + |vs|
  {
    hide *;
    if vs == [] {
      RestNone(all, delta);
    } else {
      var v, vs' := vs[0], vs[1..];
      var cs' := AllowedChanges(all, vs', n);
      AlignedIn(o, n, vs, j, k);
      WithinMeans(o, n, v);
      OrderedTail(us, vs);
      RestUnfold(all, vs, delta);
      ChangesUnfold(all, vs, n);
      TouchedMeans(vs, us[a]);
      if !Allowed(all, v) {
        if q == 0 {
          AllowedFit(all, vs', o, n, v.oldEnd, v.newEnd);
          ChangesStart(all, vs, n);
          FirstStaysApart(us, cs', v, delta, |o|, a);
        } else {
          StaysApart(all, us, vs', o, n, v.oldEnd, v.newEnd, delta, a, q - 1);
        }
      } else {
        var c := Change(v.oldStart, v.oldEnd, Slice(n, v.newStart, v.newEnd));
        AllowedHead(us, v, n, c, cs');
        MovedUnfold(us, c, cs', delta);
        if Before(c.Extent(), us[0]) {
          StaysApart(all, us, vs', o, n, v.oldEnd, v.newEnd, delta + v.Delta(), a, q);
        } else if a == 0 {
          NewOrdered(o, n, vs, j, k);
          MaskHead(all, vs);
          RestStarts(vs, AllowedMask(all, vs), delta, q);
          PastIt(Rest(vs, AllowedMask(all, vs), delta)[q], v, us[0], delta);
        } else {
          UntouchedTails(us, AllowedChanges(all, vs, n));
          assert us[1..][a - 1] == us[a];
          StaysApart(all, us[1..], vs, o, n, j, k, delta, a - 1, q);
        }
      }
    }
  }

  lemma RestNone(us: seq<Edit>, delta: int)
    ensures Rest([], AllowedMask(us, []), delta) == []
  {
  }

  /** The first change and the first unreviewed edit are apart. */
  lemma AllowedHead<T>(us: seq<Edit>, v: Edit, n: seq<T>, c: Change<T>, cs: seq<Change<T>>)
    requires c == Change(v.oldStart, v.oldEnd, Slice(n, v.newStart, v.newEnd)) && us != []
    requires 0 <= v.newStart <= v.newEnd <= |n| && Untouched(us, [c] + cs)
    ensures c.Delta() == v.Delta() && Untouched(us, cs)
    ensures Before(c.Extent(), us[0]) || After(v, us[0])
  {
    assert ([c] + cs)[0] == c;
    assert forall q :: 0 <= q < |cs| ==> ([c] + cs)[q + 1] == cs[q];
  }

  lemma MaskHead(us: seq<Edit>, vs: seq<Edit>)
    requires vs != []
    ensures AllowedMask(us, vs)[0] == Allowed(us, vs[0])
  {
  }

  lemma {:induction false} NewOrdered<T>(o: seq<T>, n: seq<T>, vs: seq<Edit>, j: int, k: int)
    requires Aligned(o, n, vs, j, k)
    ensures forall t :: 0 <= t < |vs| ==> vs[t].newStart <= vs[t].newEnd
    decreases |vs|
  {
    if vs != [] {
      NewOrdered(o, n, vs[1..], vs[0].oldEnd, vs[0].newEnd);
      assert forall t :: 0 < t < |vs| ==> vs[t] == vs[1..][t - 1];
    }
  }

  lemma PastIt(w: Edit, v: Edit, u: Edit, delta: int)
    requires After(v, u) && w.oldStart > v.oldStart + delta
    ensures !Conflict(w, Shifted(u, delta))
  {
  }

  // ----- the patch of a rebase

  /** The patch from the rebased base to the new rows. */
  ghost function RebasedPatch<T>(us: seq<Edit>, vs: seq<Edit>, n: seq<T>): seq<Edit> {
    Compose(Moved(us, AllowedChanges(us, vs, n), 0), Rest(vs, AllowedMask(us, vs), 0), 0, 0, 0)
  }

  /** The rebase theorem, with one patch.  It turns the rebased base into the new rows.  Its
      edits are made of the unreviewed edits, moved, and the conflicting user edits, shared out
      in order: each is one unreviewed edit alone, or a chain of both that touch, and reaches over
      no row that is in none of them.  So it has no more edits than before, and without
      conflicting edits it is the unreviewed edits, moved. */
  lemma OnePatch<T>(b: seq<T>, o: seq<T>, n: seq<T>, us: seq<Edit>, vs: seq<Edit>)
    requires Rep(b, us, o) && Rep(o, vs, n)
    ensures var ms, rest := Moved(us, AllowedChanges(us, vs, n), 0), Rest(vs, AllowedMask(us, vs), 0);
            var ws, gs := RebasedPatch(us, vs, n), Groups(ms, rest);
            && Aligned(RebasedBase(b, us, vs, n), n, ws, 0, 0)
            && AllUs(gs) == ms && AllVs(gs) == rest && AllWhole(gs) && AllSpan(ws, gs)
            && (forall r :: 0 <= r < |gs| ==> gs[r].us != [] && NoRowLeftOut(gs[r]))
            && |ws| <= |us|
            && ((forall t :: 0 <= t < |vs| ==> Allowed(us, vs[t])) ==> ws == ms && |ws| == |us|)
  {
    hide *;
    var ms, rest := Moved(us, AllowedChanges(us, vs, n), 0), Rest(vs, AllowedMask(us, vs), 0);
    var base, mid := RebasedBase(b, us, vs, n), AllowedOnly(o, us, vs, n);
    var ws, gs := RebasedPatch(us, vs, n), Groups(ms, rest);
    RebaseTheorem(b, o, n, us, vs);
    RepParts(mid, rest, n);
    PatchIs(us, vs, n);
    ComposeAligned(base, mid, n, ms, rest, 0, 0, 0);
    GroupsShareOut(ms, rest);
    ComposeSpans(base, mid, n, ms, rest, 0, 0, 0);
    ConflictsStay(b, o, n, us, vs);
    AlignedOrdered(base, mid, ms, 0, 0);
    AlignedOrdered(mid, n, rest, 0, 0);
    NoneAlone(ms, rest);
    forall r | 0 <= r < |gs|
      ensures gs[r].us != [] && NoRowLeftOut(gs[r])
    {
      AllHaveMeans(gs, r);
      AllWholeMeans(gs, r);
      LeavesNoRowOut(gs[r]);
    }
    AtMostAsMany(gs);
    SpanCount(ws, gs);
    if forall t :: 0 <= t < |vs| ==> Allowed(us, vs[t]) {
      AllAllowed(us, vs, 0);
      ComposeWithNone(ms, 0, 0);
    }
  }

  ghost predicate NoRowLeftOut(g: Group)
    requires g.us != []
  {
    forall row :: From(g) <= row <= To(g) ==> Covers(g, row)
  }

  lemma LeavesNoRowOut(g: Group)
    requires Whole(g) && g.us != []
    ensures NoRowLeftOut(g)
  {
    hide Whole, Covers;
    forall row | From(g) <= row <= To(g)
      ensures Covers(g, row)
    {
      GroupCovers(g, row);
    }
  }

  lemma AllWholeMeans(gs: seq<Group>, r: nat)
    requires AllWhole(gs) && r < |gs|
    ensures Whole(gs[r])
  {
    hide Whole;
  }

  lemma SpanCount(ws: seq<Edit>, gs: seq<Group>)
    requires AllSpan(ws, gs)
    ensures |ws| == |gs|
  {
    hide Spans;
  }

  // ----- no conflicting user edit stands alone

  /** Ordered on the side where the two patches meet; edits may touch. */
  ghost predicate Meeting(ps: seq<Edit>, qs: seq<Edit>) {
    && (forall p :: 0 <= p < |ps| ==> ps[p].newStart <= ps[p].newEnd)
    && (forall p, r :: 0 <= p < r < |ps| ==> ps[p].newEnd <= ps[r].newStart)
    && (forall q :: 0 <= q < |qs| ==> qs[q].oldStart <= qs[q].oldEnd)
    && (forall q, r :: 0 <= q < r < |qs| ==> qs[q].oldEnd <= qs[r].oldStart)
  }

  lemma {:induction false} AlignedOrdered<T>(b: seq<T>, s: seq<T>, es: seq<Edit>, i: int, j: int)
    requires Aligned(b, s, es, i, j)
    ensures Meeting(es, []) && Meeting([], es)
    ensures forall k :: 0 <= k < |es| ==> i <= es[k].oldStart && j <= es[k].newStart
    decreases |es|
  {
    hide Meeting;
    if es == [] {
      MeetingNone();
    } else {
      AlignedIn(b, s, es, i, j);
      hide Aligned;
      AlignedOrdered(b, s, es[1..], es[0].oldEnd, es[0].newEnd);
      MeetingCons(es[0], es[1..]);
      FollowsHead(es);
      forall k | 0 <= k < |es|
        ensures i <= es[k].oldStart && j <= es[k].newStart
      {
        assert k > 0 ==> es[k] == es[1..][k - 1];
      }
    }
  }

  lemma MeetingNone()
    ensures Meeting([], [])
  {
  }

  lemma MeetingCons(e: Edit, es: seq<Edit>)
    requires Meeting(es, []) && Meeting([], es)
    requires e.oldStart <= e.oldEnd && e.newStart <= e.newEnd
    requires forall k :: 0 <= k < |es| ==> e.oldEnd <= es[k].oldStart && e.newEnd <= es[k].newStart
    ensures Meeting([e] + es, []) && Meeting([], [e] + es)
  {
    var all := [e] + es;
    forall p, r | 0 <= p < r < |all|
      ensures all[p].newEnd <= all[r].newStart && all[p].oldEnd <= all[r].oldStart
    {
      assert all[r] == es[r - 1];
      assert p > 0 ==> all[p] == es[p - 1];
    }
  }

  ghost predicate Touched(ps: seq<Edit>, q: Edit) {
    exists p :: 0 <= p < |ps| && Conflict(q, ps[p])
  }

  ghost predicate AllTouched(ps: seq<Edit>, qs: seq<Edit>) {
    forall q :: 0 <= q < |qs| ==> Touched(ps, qs[q])
  }

  ghost predicate AllHaveFirst(gs: seq<Group>) {
    forall r :: 0 <= r < |gs| ==> gs[r].us != []
  }

  lemma AllHaveMeans(gs: seq<Group>, r: nat)
    requires AllHaveFirst(gs) && r < |gs|
    ensures gs[r].us != []
  {
  }

  lemma HaveCons(g: Group, gs: seq<Group>)
    requires g.us != [] && AllHaveFirst(gs)
    ensures AllHaveFirst([g] + gs)
  {
  }

  lemma HaveNone()
    ensures AllHaveFirst([])
  {
  }

  /** Edits that lie after `u` are touched by another. */
  lemma TouchedWithout(u: Edit, ps: seq<Edit>, qs: seq<Edit>)
    requires AllTouched([u] + ps, qs) && Meeting([u] + ps, qs) && (qs == [] || After(qs[0], u))
    ensures AllTouched(ps, qs)
  {
    forall q | 0 <= q < |qs|
      ensures Touched(ps, qs[q])
    {
      var p :| 0 <= p < |[u] + ps| && Conflict(qs[q], ([u] + ps)[p]);
      assert q > 0 ==> qs[0].oldEnd <= qs[q].oldStart;
      assert ([u] + ps)[0] == u;
      assert p > 0;
      assert ([u] + ps)[p] == ps[p - 1];
    }
  }

  /** An edit before the first is before all. */
  lemma BeforeAll(ps: seq<Edit>, qs: seq<Edit>)
    requires qs != [] && (ps == [] || Before(qs[0], ps[0])) && Meeting(ps, qs)
    ensures !AllTouched(ps, qs)
  {
    forall p | 0 <= p < |ps|
      ensures !Conflict(qs[0], ps[p])
    {
      assert p > 0 ==> ps[0].newEnd <= ps[p].newStart;
    }
    assert !Touched(ps, qs[0]);
  }

  lemma TouchedTail(ps: seq<Edit>, qs: seq<Edit>)
    requires AllTouched(ps, qs) && qs != []
    ensures AllTouched(ps, qs[1..])
  {
    hide Touched;
    assert forall q :: 0 <= q < |qs[1..]| ==> qs[1..][q] == qs[q + 1];
  }

  lemma MeetingTails(ps: seq<Edit>, qs: seq<Edit>)
    requires Meeting(ps, qs)
    ensures ps != [] ==> Meeting(ps[1..], qs)
    ensures qs != [] ==> Meeting(ps, qs[1..])
    ensures ps != [] && qs != [] ==> Meeting(ps[1..], qs[1..])
  {
  }

  lemma {:induction false} NoneAlone(ps: seq<Edit>, qs: seq<Edit>)
    requires Meeting(ps, []) && Meeting([], qs) && AllTouched(ps, qs)
    ensures AllHaveFirst(Groups(ps, qs))
    decreases |ps| + |qs|, 0
  {
    hide *;
    MeetingBoth(ps, qs);
    MeetingTails(ps, qs);
    if ps == [] && qs == [] {
      GroupsNothing();
      HaveNone();
    } else if ps != [] && (qs == [] || After(qs[0], ps[0])) {
      assert ps == [ps[0]] + ps[1..];
      TouchedWithout(ps[0], ps[1..], qs);
      GroupsFirst(ps, qs);
      MeetingParts(ps[1..], qs);
      NoneAlone(ps[1..], qs);
      HaveCons(Group([ps[0]], []), Groups(ps[1..], qs));
    } else if qs != [] && (ps == [] || Before(qs[0], ps[0])) {
      BeforeAll(ps, qs);
      assert false;
    } else {
      ConflictIs(qs[0], ps[0]);
      GroupsBoth(ps, qs);
      TouchedTail(ps, qs);
      assert ps == [ps[0]] + ps[1..];
      LastOne(ps[0]);
      LastOne(qs[0]);
      FollowsHead(qs);
      GrowNoneAlone(ps[1..], qs[1..], [ps[0]], [qs[0]]);
    }
  }

  lemma MeetingBoth(ps: seq<Edit>, qs: seq<Edit>)
    requires Meeting(ps, []) && Meeting([], qs)
    ensures Meeting(ps, qs)
  {
  }

  lemma MeetingParts(ps: seq<Edit>, qs: seq<Edit>)
    requires Meeting(ps, qs)
    ensures Meeting(ps, []) && Meeting([], qs)
  {
  }

  lemma FollowsHead(qs: seq<Edit>)
    requires qs != []
    ensures [qs[0]] + qs[1..] == qs
  {
  }

  /** A user edit that comes after one touching `u` and does not touch `u` itself lies after it. */
  lemma NextIsAfter(u: Edit, v: Edit, ps: seq<Edit>, qs: seq<Edit>)
    requires Conflict(v, u) && Meeting([u] + ps, [v] + qs) && qs != [] && !Conflict(qs[0], u)
    ensures After(qs[0], u)
  {
    assert ([v] + qs)[0] == v && ([v] + qs)[1] == qs[0];
  }

  lemma DropSecond(us: seq<Edit>, v: Edit, qs: seq<Edit>)
    requires Meeting(us, [v] + qs)
    ensures Meeting(us, qs)
  {
    MeetingTails(us, [v] + qs);
    assert ([v] + qs)[1..] == qs;
  }

  lemma DropFirst(u: Edit, ps: seq<Edit>, vs: seq<Edit>)
    requires Meeting([u] + ps, vs)
    ensures Meeting(ps, vs)
  {
    MeetingTails([u] + ps, vs);
    assert ([u] + ps)[1..] == ps;
  }

  lemma {:induction false} GrowNoneAlone(ps: seq<Edit>, qs: seq<Edit>, us: seq<Edit>, vs: seq<Edit>)
    requires us != [] && vs != [] && Conflict(Last(vs), Last(us))
    requires Meeting([Last(us)] + ps, [Last(vs)] + qs) && AllTouched([Last(us)] + ps, qs)
    ensures AllHaveFirst(GrowGroup(ps, qs, us, vs))
    decreases |ps| + |qs|, 1
  {
    hide *;
    var u, v := Last(us), Last(vs);
    GroupGrows(ps, qs, us, vs);
    DropSecond([u] + ps, v, qs);
    if qs != [] && Conflict(qs[0], u) {
      LastOf(vs, qs[0]);
      FollowsHead(qs);
      TouchedTail([u] + ps, qs);
      GrowNoneAlone(ps, qs[1..], us, vs + [qs[0]]);
    } else {
      if qs != [] {
        NextIsAfter(u, v, ps, qs);
      }
      TouchedWithout(u, ps, qs);
      DropFirst(u, ps, [v] + qs);
      if ps != [] && Conflict(v, ps[0]) {
        LastOf(us, ps[0]);
        FollowsHead(ps);
        GrowNoneAlone(ps[1..], qs, us + [ps[0]], vs);
      } else {
        DropSecond(ps, v, qs);
        MeetingParts(ps, qs);
        NoneAlone(ps, qs);
        HaveCons(Group(us, vs), Groups(ps, qs));
      }
    }
  }

  lemma {:induction false} AtMostAsMany(gs: seq<Group>)
    requires AllHaveFirst(gs)
    ensures |gs| <= |AllUs(gs)|
  {
    if gs != [] {
      AtMostAsMany(gs[1..]);
    }
  }

  /** A user edit that is not allowed, against an unreviewed edit it touches: both move alike. */
  lemma FirstStaysTouching<T>(us: seq<Edit>, cs: seq<Change<T>>, v: Edit, delta: int, size: int, a: nat)
    requires OrderedNew(us) && a < |us| && Conflict(v, us[a]) && v.oldStart <= v.oldEnd
    requires Fits(cs, size, v.oldEnd) && (cs == [] || v.oldEnd < cs[0].start)
    ensures Conflict(v.ShiftOld(delta), Moved(us, cs, delta)[a])
  {
    MovedStarts(us, cs, delta, size, v.oldEnd, a);
    hide Moved;
  }

  /** What is not allowed touches one of the edits still to come. */
  ghost predicate ForbiddenTouch(all: seq<Edit>, us: seq<Edit>, vs: seq<Edit>) {
    forall t :: 0 <= t < |vs| && !Allowed(all, vs[t]) ==> Touched(us, vs[t])
  }

  lemma ForbiddenTail(all: seq<Edit>, us: seq<Edit>, vs: seq<Edit>)
    requires ForbiddenTouch(all, us, vs) && vs != []
    ensures ForbiddenTouch(all, us, vs[1..])
    ensures !Allowed(all, vs[0]) ==> Touched(us, vs[0])
  {
    hide Touched, Allowed;
    assert forall t :: 0 <= t < |vs[1..]| ==> vs[1..][t] == vs[t + 1];
  }

  lemma ForbiddenAfter(all: seq<Edit>, us: seq<Edit>, vs: seq<Edit>)
    requires ForbiddenTouch(all, us, vs) && us != [] && vs != [] && After(vs[0], us[0])
    requires OrderedOld(vs)
    ensures ForbiddenTouch(all, us[1..], vs)
  {
    hide Allowed;
    forall t | 0 <= t < |vs| && !Allowed(all, vs[t])
      ensures Touched(us[1..], vs[t])
    {
      var a :| 0 <= a < |us| && Conflict(vs[t], us[a]);
      assert t > 0 ==> vs[0].oldEnd < vs[t].oldStart;
      assert a > 0;
      assert us[1..][a - 1] == us[a];
    }
  }

  lemma TouchedAt(us: seq<Edit>, v: Edit) returns (a: nat)
    requires Touched(us, v)
    ensures a < |us| && Conflict(v, us[a])
  {
    a :| 0 <= a < |us| && Conflict(v, us[a]);
  }

  /** Every conflicting user edit still touches an unreviewed edit after the moves. */
  lemma {:induction false} StaysTouching<T>(
      all: seq<Edit>, us: seq<Edit>, vs: seq<Edit>, o: seq<T>, n: seq<T>, j: int, k: int,
      delta: int, q: nat) returns (a: nat)
    requires Aligned(o, n, vs, j, k) && OrderedNew(us) && OrderedOld(vs)
    requires Untouched(us, AllowedChanges(all, vs, n)) && ForbiddenTouch(all, us, vs)
    requires q < |Rest(vs, AllowedMask(all, vs), delta)|
    ensures a < |us|
    ensures Conflict(Rest(vs, AllowedMask(all, vs), delta)[q],
                     Moved(us, AllowedChanges(all, vs, n), delta)[a])
    decreases |us| + |vs|
  {
    hide *;
    if vs == [] {
      RestNone(all, delta);
      assert false;
    } else {
      var v, vs' := vs[0], vs[1..];
      var cs' := AllowedChanges(all, vs', n);
      AlignedIn(o, n, vs, j, k);
      WithinMeans(o, n, v);
      OrderedTail(us, vs);
      RestUnfold(all, vs, delta);
      ChangesUnfold(all, vs, n);
      ForbiddenTail(all, us, vs);
      if !Allowed(all, v) {
        if q == 0 {
          a := TouchedAt(us, v);
          AllowedFit(all, vs', o, n, v.oldEnd, v.newEnd);
          ChangesStart(all, vs, n);
          FirstStaysTouching(us, cs', v, delta, |o|, a);
        } else {
          a := StaysTouching(all, us, vs', o, n, v.oldEnd, v.newEnd, delta, q - 1);
        }
      } else if us == [] {
        NothingForbidden(all, vs, delta);
        assert false;
      } else {
        var c := Change(v.oldStart, v.oldEnd, Slice(n, v.newStart, v.newEnd));
        AllowedHead(us, v, n, c, cs');
        MovedUnfold(us, c, cs', delta);
        if Before(c.Extent(), us[0]) {
          a := StaysTouching(all, us, vs', o, n, v.oldEnd, v.newEnd, delta + v.Delta(), q);
        } else {
          UntouchedTails(us, AllowedChanges(all, vs, n));
          ForbiddenAfter(all, us, vs);
          a := StaysTouching(all, us[1..], vs, o, n, j, k, delta, q);
          a := a + 1;
        }
      }
    }
  }

  /** With no unreviewed edit left, nothing is forbidden any more. */
  lemma NothingForbidden(all: seq<Edit>, vs: seq<Edit>, delta: int)
    requires ForbiddenTouch(all, [], vs)
    ensures Rest(vs, AllowedMask(all, vs), delta) == []
  {
    forall t | 0 <= t < |vs|
      ensures Allowed(all, vs[t])
    {
      assert !Touched([], vs[t]);
    }
    AllAllowed(all, vs, delta);
  }

  lemma ConflictsStay<T>(b: seq<T>, o: seq<T>, n: seq<T>, us: seq<Edit>, vs: seq<Edit>)
    requires Rep(b, us, o) && Rep(o, vs, n)
    ensures AllTouched(Moved(us, AllowedChanges(us, vs, n), 0), Rest(vs, AllowedMask(us, vs), 0))
  {
    hide Rep, Aligned, Rest, Moved, AllowedMask, AllowedChanges, Conflict, OrderedNew, OrderedOld;
    AllowedReady(b, o, n, us, vs);
    RepOrdered(b, us, o);
    RepOrdered(o, vs, n);
    assert ForbiddenTouch(us, us, vs);
    var ms, rest := Moved(us, AllowedChanges(us, vs, n), 0), Rest(vs, AllowedMask(us, vs), 0);
    forall q | 0 <= q < |rest|
      ensures Touched(ms, rest[q])
    {
      var a := StaysTouching(us, us, vs, o, n, 0, 0, 0, q);
      assert Conflict(rest[q], ms[a]);
    }
  }

  lemma PatchIs<T>(us: seq<Edit>, vs: seq<Edit>, n: seq<T>)
    ensures RebasedPatch(us, vs, n) ==
            Compose(Moved(us, AllowedChanges(us, vs, n), 0), Rest(vs, AllowedMask(us, vs), 0), 0, 0, 0)
  {
  }

  lemma {:induction false} AllAllowed(us: seq<Edit>, vs: seq<Edit>, delta: int)
    requires forall t :: 0 <= t < |vs| ==> Allowed(us, vs[t])
    ensures Rest(vs, AllowedMask(us, vs), delta) == []
    decreases |vs|
  {
    hide Rest, Allowed;
    if vs == [] {
      RestNone(us, delta);
    } else {
      RestUnfold(us, vs, delta);
      AllAllowed(us, vs[1..], delta + vs[0].Delta());
    }
  }

  /** An unreviewed edit that no user edit touches is in the patch with its exact rows: those it
      replaced in the base, and those it put in their place. */
  lemma UntouchedKeepsRows<T>(b: seq<T>, o: seq<T>, n: seq<T>, us: seq<Edit>, vs: seq<Edit>, a: nat)
      returns (w: Edit)
    requires Rep(b, us, o) && Rep(o, vs, n) && a < |us| && TouchedByNone(vs, us[a])
    ensures w in RebasedPatch(us, vs, n)
    ensures Slice(RebasedBase(b, us, vs, n), w.oldStart, w.oldEnd) ==
            Slice(b, us[a].oldStart, us[a].oldEnd)
    ensures Slice(n, w.newStart, w.newEnd) == Slice(o, us[a].newStart, us[a].newEnd)
  {
    hide *;
    var ms, rest := Moved(us, AllowedChanges(us, vs, n), 0), Rest(vs, AllowedMask(us, vs), 0);
    var base, mid := RebasedBase(b, us, vs, n), AllowedOnly(o, us, vs, n);
    RebaseTheorem(b, o, n, us, vs);
    MovedKeepsRows(b, o, n, us, vs, a);
    RepParts(mid, rest, n);
    PatchIs(us, vs, n);
    UntouchedMoved(b, o, n, us, vs, a);
    w := UntouchedStays(base, mid, n, ms, rest, 0, 0, 0, a);
    CarriesMeans(w, ms[a], mid, n);
  }

  lemma CarriesMeans<T>(w: Edit, u: Edit, m: seq<T>, n: seq<T>)
    requires Carries(w, u, m, n)
    ensures w.oldStart == u.oldStart && w.oldEnd == u.oldEnd
    ensures Slice(n, w.newStart, w.newEnd) == Slice(m, u.newStart, u.newEnd)
  {
  }

  lemma UntouchedMoved<T>(b: seq<T>, o: seq<T>, n: seq<T>, us: seq<Edit>, vs: seq<Edit>, a: nat)
    requires Rep(b, us, o) && Rep(o, vs, n) && a < |us| && TouchedByNone(vs, us[a])
    ensures TouchedByNone(Rest(vs, AllowedMask(us, vs), 0), Moved(us, AllowedChanges(us, vs, n), 0)[a])
  {
    hide Rep, Aligned, Rest, Moved, AllowedMask, AllowedChanges, Conflict, OrderedNew, OrderedOld;
    AllowedReady(b, o, n, us, vs);
    RepOrdered(b, us, o);
    RepOrdered(o, vs, n);
    var ms, rest := Moved(us, AllowedChanges(us, vs, n), 0), Rest(vs, AllowedMask(us, vs), 0);
    forall q | 0 <= q < |rest|
      ensures !Conflict(rest[q], ms[a])
    {
      StaysApart(us, us, vs, o, n, 0, 0, 0, a, q);
    }
  }
}

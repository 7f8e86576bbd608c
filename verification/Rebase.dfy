/** Carrying the user's edits over to the reviewed text.

    The reviewed text is turned into the last seen text by the unreviewed edits, and that into
    the new text by the user's edits.  A user edit that touches no unreviewed edit is made in
    the reviewed text too; the others are left out of it.  `RebaseSquare` is why that is right:
    making the same changes on both sides leaves the unreviewed edits between the two, moved
    but otherwise as they were. */
module Rebase {
  import opened Patches
  import opened Texts

  // ----- when two edits touch

  /** The user edit `v` lies before the unreviewed edit `u`.  It may end where `u` starts,
      unless `u` leaves no rows there. */
  predicate Before(v: Edit, u: Edit) {
    v.oldEnd < u.newStart || (u.newStart != u.newEnd && v.oldEnd == u.newStart)
  }

  predicate After(v: Edit, u: Edit) {
    v.oldStart > u.newEnd || (u.newStart != u.newEnd && v.oldStart == u.newEnd)
  }

  predicate Conflict(v: Edit, u: Edit) {
    !Before(v, u) && !After(v, u)
  }

  /** The test the loop uses to look one user edit ahead. */
  predicate Overlaps(v: Edit, u: Edit) {
    v.oldStart < u.newEnd && u.newStart < v.oldEnd
  }

  /** The all-pairs check: the user edit touches no unreviewed edit. */
  predicate Allowed(us: seq<Edit>, v: Edit) {
    forall k :: 0 <= k < |us| ==> !Conflict(v, us[k])
  }

  predicate HasOldRow(v: Edit, row: int) {
    v.oldStart <= row < v.oldEnd
  }

  predicate HasNewRow(u: Edit, row: int) {
    u.newStart <= row < u.newEnd
  }

  ghost predicate ShareRow(v: Edit, u: Edit) {
    exists row :: HasOldRow(v, row) && HasNewRow(u, row)
  }

  /** What the test means on the rows.  Two edits that both have rows there conflict when they have
      one in common; an insertion conflicts strictly inside the unreviewed rows; and where the
      unreviewed edit left no rows, touching the place is enough. */
  lemma ConflictMeans(v: Edit, u: Edit)
    requires v.oldStart <= v.oldEnd && u.newStart <= u.newEnd
    ensures Conflict(v, u) <==>
            if u.newStart == u.newEnd then v.oldStart <= u.newStart <= v.oldEnd
            else if v.oldStart == v.oldEnd then u.newStart < v.oldStart < u.newEnd
            else ShareRow(v, u)
  {
    var row := if v.oldStart < u.newStart then u.newStart else v.oldStart;
    if Conflict(v, u) && u.newStart < u.newEnd && v.oldStart < v.oldEnd {
      assert HasOldRow(v, row) && HasNewRow(u, row);
    }
  }

  /** The look-ahead sees a next edit that has a row in common, or lies strictly inside. */
  lemma OverlapMeans(v: Edit, u: Edit)
    requires v.oldStart <= v.oldEnd && u.newStart <= u.newEnd
    ensures Overlaps(v, u) <==>
            if u.newStart == u.newEnd then v.oldStart < u.newStart < v.oldEnd
            else if v.oldStart == v.oldEnd then u.newStart < v.oldStart < u.newEnd
            else ShareRow(v, u)
  {
    var row := if v.oldStart < u.newStart then u.newStart else v.oldStart;
    if Overlaps(v, u) && u.newStart < u.newEnd && v.oldStart < v.oldEnd {
      assert HasOldRow(v, row) && HasNewRow(u, row);
    }
  }

  // ----- changes and what they make

  /** Rows to be put in place of `start..end`. */
  datatype Change<T> = Change(start: int, end: int, rows: seq<T>) {
    function Delta(): int {
      |rows| - (end - start)
    }
    function Extent(): Edit {
      Edit(start, end, start, start + |rows|)
    }
  }

  /** The changes of the user edits that touch no unreviewed edit. */
  function AllowedChanges<T>(us: seq<Edit>, vs: seq<Edit>, n: seq<T>): seq<Change<T>> {
    if vs == [] then []
    else if Allowed(us, vs[0])
    then [Change(vs[0].oldStart, vs[0].oldEnd, Slice(n, vs[0].newStart, vs[0].newEnd))]
         + AllowedChanges(us, vs[1..], n)
    else AllowedChanges(us, vs[1..], n)
  }

  /** The changes are ordered and lie within `size`, from `j` on. */
  ghost predicate Fits<T>(cs: seq<Change<T>>, size: int, j: int) {
    if cs == [] then j <= size
    else j <= cs[0].start <= cs[0].end <= size && Fits(cs[1..], size, cs[0].end)
  }

  ghost predicate Untouched<T>(us: seq<Edit>, cs: seq<Change<T>>) {
    forall p, q :: 0 <= p < |us| && 0 <= q < |cs| ==> !Conflict(cs[q].Extent(), us[p])
  }

  /** The sequence with the changes made, from `j` on. */
  function Apply<T>(s: seq<T>, cs: seq<Change<T>>, j: int): seq<T>
    decreases |cs|
  {
    if cs == [] then Slice(s, j, |s|)
    else Slice(s, j, cs[0].start) + cs[0].rows + Apply(s, cs[1..], cs[0].end)
  }

  /** The same changes made on the other side of the patch `us`, from `i` there and `j` here on:
      between two edits of the patch the positions differ by `j - i`. */
  function Rebased<T>(b: seq<T>, us: seq<Edit>, cs: seq<Change<T>>, i: int, j: int): seq<T>
    decreases |us| + |cs|
  {
    if us == [] && cs == [] then Slice(b, i, |b|)
    else if cs != [] && (us == [] || Before(cs[0].Extent(), us[0]))
    then Slice(b, i, cs[0].start - j + i) + cs[0].rows
         + Rebased(b, us, cs[1..], cs[0].end - j + i, cs[0].end)
    else Slice(b, i, us[0].oldEnd) + Rebased(b, us[1..], cs, us[0].oldEnd, us[0].newEnd)
  }

  /** The patch afterwards: each edit moved, on both sides, by the changes before it. */
  function Moved<T>(us: seq<Edit>, cs: seq<Change<T>>, delta: int): (ms: seq<Edit>)
    ensures |ms| == |us|
    decreases |us| + |cs|
  {
    if us == [] then []
    else if cs != [] && Before(cs[0].Extent(), us[0])
    then Moved(us, cs[1..], delta + cs[0].Delta())
    else [us[0].ShiftOld(delta).ShiftNew(delta)] + Moved(us[1..], cs, delta)
  }

  // ----- the square

  /** The commuting square: the changes made on both sides leave the patch between them, and a
      script that spells it out. */
  lemma {:induction false} SquareScript<T>(
      b: seq<T>, o: seq<T>, us: seq<Edit>, cs: seq<Change<T>>, i: int, j: int, delta: int)
      returns (segs: seq<Segment<T>>, tail: seq<T>)
    requires Aligned(b, o, us, i, j) && Fits(cs, |o|, j) && Untouched(us, cs)
    ensures Rebased(b, us, cs, i, j) == OldOf(segs, tail)
    ensures Apply(o, cs, j) == NewOf(segs, tail)
    ensures Moved(us, cs, delta) == EditsOf(segs, i + delta, j + delta)
    ensures |segs| == |us|
    ensures forall k :: 0 <= k < |us| ==> Spells(segs[k], b, o, us[k])
    decreases |us| + |cs|
  {
    hide *;
    UntouchedTails(us, cs);
    if us == [] && cs == [] {
      AtEnd(b, o, us, cs, i, j, delta);
      segs, tail := NoSegments(b[i..], i + delta, j + delta);
    } else if cs != [] && (us == [] || Before(cs[0].Extent(), us[0])) {
      var c := cs[0];
      AtChange(b, o, us, cs, i, j, delta);
      var g := ChangeGap(b, o, us, c, i, j);
      segs, tail := SquareScript(b, o, us, cs[1..], c.end - j + i, c.end, delta + c.Delta());
      var segs' := segs;
      segs, tail := MoreInFront(g + c.rows, segs, tail, i + delta, j + delta);
      SpellsAlike(segs', segs, b, o, us);
    } else {
      var u := us[0];
      AtEdit(b, o, us, cs, i, j, delta);
      segs, tail := SquareScript(b, o, us[1..], cs, u.oldEnd, u.newEnd, delta);
      segs := EditInFront(b, o, u, i, j, segs, tail, delta);
    }
  }

  ghost predicate Spells<T>(g: Segment<T>, b: seq<T>, o: seq<T>, u: Edit) {
    g.before == Slice(b, u.oldStart, u.oldEnd) && g.after == Slice(o, u.newStart, u.newEnd)
  }

  lemma SpellsAlike<T>(was: seq<Segment<T>>, now: seq<Segment<T>>, b: seq<T>, o: seq<T>,
                       us: seq<Edit>)
    requires |was| == |now| == |us|
    requires forall k :: 0 <= k < |us| ==>
               now[k].before == was[k].before && now[k].after == was[k].after
    requires forall k :: 0 <= k < |us| ==> Spells(was[k], b, o, us[k])
    ensures forall k :: 0 <= k < |us| ==> Spells(now[k], b, o, us[k])
  {
  }

  // The definitions, one step unfolded.

  lemma AtEnd<T>(
      b: seq<T>, o: seq<T>, us: seq<Edit>, cs: seq<Change<T>>, i: int, j: int, delta: int)
    requires Aligned(b, o, us, i, j) && us == [] && cs == []
    ensures 0 <= i <= |b| && Rebased(b, us, cs, i, j) == b[i..] == Apply(o, cs, j)
    ensures Moved(us, cs, delta) == []
  {
  }

  lemma AtChange<T>(
      b: seq<T>, o: seq<T>, us: seq<Edit>, cs: seq<Change<T>>, i: int, j: int, delta: int)
    requires Fits(cs, |o|, j) && cs != [] && (us == [] || Before(cs[0].Extent(), us[0]))
    ensures var c := cs[0];
            && j <= c.start <= c.end <= |o| && Fits(cs[1..], |o|, c.end)
            && c.Delta() == |c.rows| - (c.end - c.start)
            && Rebased(b, us, cs, i, j) == Slice(b, i, c.start - j + i) + c.rows
                 + Rebased(b, us, cs[1..], c.end - j + i, c.end)
            && Apply(o, cs, j) == Slice(o, j, c.start) + c.rows + Apply(o, cs[1..], c.end)
            && Moved(us, cs, delta) == Moved(us, cs[1..], delta + c.Delta())
  {
  }

  lemma AtEdit<T>(
      b: seq<T>, o: seq<T>, us: seq<Edit>, cs: seq<Change<T>>, i: int, j: int, delta: int)
    requires Aligned(b, o, us, i, j) && Fits(cs, |o|, j)
    requires us != [] && (cs == [] || After(cs[0].Extent(), us[0]))
    ensures var u := us[0];
            && u.Within(b, o) && 0 <= i <= u.oldStart <= u.oldEnd <= |b|
            && 0 <= j <= u.newStart <= u.newEnd <= |o|
            && b[i..u.oldStart] == o[j..u.newStart]
            && Aligned(b, o, us[1..], u.oldEnd, u.newEnd) && Fits(cs, |o|, u.newEnd)
            && Rebased(b, us, cs, i, j) ==
                 b[i..u.oldEnd] + Rebased(b, us[1..], cs, u.oldEnd, u.newEnd)
            && Apply(o, cs, j) == o[j..u.newEnd] + Apply(o, cs, u.newEnd)
            && Moved(us, cs, delta) ==
                 [u.ShiftOld(delta).ShiftNew(delta)] + Moved(us[1..], cs, delta)
  {
    ApplyFrom(o, cs, j, us[0].newEnd);
  }

  lemma NoSegments<T>(rest: seq<T>, i: int, j: int) returns (segs: seq<Segment<T>>, tail: seq<T>)
    ensures OldOf(segs, tail) == NewOf(segs, tail) == rest && EditsOf(segs, i, j) == [] && segs == []
  {
    segs, tail := [], rest;
  }

  lemma EditInFront<T>(b: seq<T>, o: seq<T>, u: Edit, i: int, j: int,
                       rest: seq<Segment<T>>, tail: seq<T>, delta: int)
      returns (segs: seq<Segment<T>>)
    requires u.Within(b, o) && 0 <= i <= u.oldStart && 0 <= j <= u.newStart
    requires b[i..u.oldStart] == o[j..u.newStart]
    ensures OldOf(segs, tail) == b[i..u.oldEnd] + OldOf(rest, tail)
    ensures NewOf(segs, tail) == o[j..u.newEnd] + NewOf(rest, tail)
    ensures EditsOf(segs, i + delta, j + delta) ==
            [u.ShiftOld(delta).ShiftNew(delta)]
            + EditsOf(rest, u.oldEnd + delta, u.newEnd + delta)
    ensures |segs| == |rest| + 1 && segs[1..] == rest && Spells(segs[0], b, o, u)
  {
    var g := b[i..u.oldStart];
    assert |g| == u.oldStart - i == u.newStart - j;
    segs := [Segment(g, b[u.oldStart..u.oldEnd], o[u.newStart..u.newEnd])] + rest;
    assert segs[1..] == rest;
    assert b[i..u.oldEnd] == g + b[u.oldStart..u.oldEnd];
    assert o[j..u.newEnd] == g + o[u.newStart..u.newEnd];
  }

  lemma RebaseSquare<T>(b: seq<T>, o: seq<T>, us: seq<Edit>, cs: seq<Change<T>>)
    requires Aligned(b, o, us, 0, 0) && Fits(cs, |o|, 0) && Untouched(us, cs)
    ensures Aligned(Rebased(b, us, cs, 0, 0), Apply(o, cs, 0), Moved(us, cs, 0), 0, 0)
  {
    hide Rebased, Apply, Moved, OldOf, NewOf, EditsOf, Aligned;
    var segs, tail := SquareScript(b, o, us, cs, 0, 0, 0);
    ScriptAligned(segs, tail, [], []);
    assert [] + OldOf(segs, tail) == OldOf(segs, tail);
    assert [] + NewOf(segs, tail) == NewOf(segs, tail);
  }

  lemma UntouchedTails<T>(us: seq<Edit>, cs: seq<Change<T>>)
    requires Untouched(us, cs)
    ensures us != [] ==> Untouched(us[1..], cs)
    ensures cs != [] ==> Untouched(us, cs[1..])
    ensures us != [] && cs != [] ==>
              Before(cs[0].Extent(), us[0]) || After(cs[0].Extent(), us[0])
  {
  }

  /** A change before the next edit of the patch lies in a gap, the same on both sides. */
  lemma ChangeGap<T>(b: seq<T>, o: seq<T>, us: seq<Edit>, c: Change<T>, i: int, j: int)
      returns (g: seq<T>)
    requires Aligned(b, o, us, i, j) && j <= c.start <= c.end <= |o|
    requires us == [] || Before(c.Extent(), us[0])
    ensures g == Slice(b, i, c.start - j + i) == Slice(o, j, c.start) && |g| == c.start - j
    ensures Aligned(b, o, us, c.end - j + i, c.end)
  {
    GapLength(b, o, us, i, j);
    AlignedForward(b, o, us, i, j, c.start - j);
    AlignedForward(b, o, us, i, j, c.end - j);
    g := o[j..c.start];
  }

  lemma {:induction false} ApplyFrom<T>(o: seq<T>, cs: seq<Change<T>>, j: int, k: int)
    requires Fits(cs, |o|, j) && 0 <= j <= k <= (if cs == [] then |o| else cs[0].start)
    ensures Fits(cs, |o|, k)
    ensures Apply(o, cs, j) == o[j..k] + Apply(o, cs, k)
  {
    hide *;
    FitsFrom(cs, |o|, j, k);
    ApplyUnfold(o, cs, j);
    ApplyUnfold(o, cs, k);
    var end := if cs == [] then |o| else cs[0].start;
    SliceWithin(o, j, end);
    SliceWithin(o, k, end);
    assert o[j..end] == o[j..k] + o[k..end];
    if cs != [] {
      Regroup(o[j..k], o[k..end], cs[0].rows, Apply(o, cs[1..], cs[0].end));
    }
  }

  lemma {:induction false} FitsFrom<T>(cs: seq<Change<T>>, size: int, j: int, k: int)
    requires Fits(cs, size, j) && k <= (if cs == [] then size else cs[0].start)
    ensures Fits(cs, size, k) && (cs != [] ==> cs[0].start <= size)
  {
  }

  lemma {:induction false} ApplyUnfold<T>(o: seq<T>, cs: seq<Change<T>>, j: int)
    ensures Apply(o, cs, j) == if cs == [] then Slice(o, j, |o|)
                               else Slice(o, j, cs[0].start) + cs[0].rows + Apply(o, cs[1..], cs[0].end)
  {
    hide Slice;
  }

  // ----- the allowed changes

  function AllowedMask(us: seq<Edit>, vs: seq<Edit>): (mask: seq<bool>)
    ensures |mask| == |vs|
    ensures forall k :: 0 <= k < |vs| ==> mask[k] == Allowed(us, vs[k])
  {
    seq(|vs|, k requires 0 <= k < |vs| => Allowed(us, vs[k]))
  }

  lemma {:induction false} AllowedFit<T>(
      us: seq<Edit>, vs: seq<Edit>, o: seq<T>, n: seq<T>, j: int, k: int)
    requires Aligned(o, n, vs, j, k)
    ensures Fits(AllowedChanges(us, vs, n), |o|, j)
    decreases |vs|
  {
    if vs != [] {
      var v := vs[0];
      AllowedFit(us, vs[1..], o, n, v.oldEnd, v.newEnd);
      if Allowed(us, v) {
        assert AllowedChanges(us, vs, n)[1..] == AllowedChanges(us, vs[1..], n);
      } else {
        FitsLower(AllowedChanges(us, vs[1..], n), |o|, v.oldEnd, j);
      }
    }
  }

  lemma FitsLower<T>(cs: seq<Change<T>>, size: int, j: int, k: int)
    requires Fits(cs, size, j) && k <= j
    ensures Fits(cs, size, k)
  {
  }

  /** A change is that of a user edit, and of an allowed one. */
  lemma {:induction false} ChangeSource<T>(us: seq<Edit>, vs: seq<Edit>, n: seq<T>, q: int)
      returns (t: int)
    requires 0 <= q < |AllowedChanges(us, vs, n)|
    ensures 0 <= t < |vs| && Allowed(us, vs[t])
    ensures AllowedChanges(us, vs, n)[q].start == vs[t].oldStart
    ensures AllowedChanges(us, vs, n)[q].end == vs[t].oldEnd
    decreases |vs|
  {
    if Allowed(us, vs[0]) {
      if q == 0 {
        t := 0;
      } else {
        t := ChangeSource(us, vs[1..], n, q - 1);
        t := t + 1;
      }
    } else {
      t := ChangeSource(us, vs[1..], n, q);
      t := t + 1;
    }
  }

  lemma AllowedUntouched<T>(us: seq<Edit>, vs: seq<Edit>, n: seq<T>)
    ensures Untouched(us, AllowedChanges(us, vs, n))
  {
    var cs := AllowedChanges(us, vs, n);
    forall p, q | 0 <= p < |us| && 0 <= q < |cs|
      ensures !Conflict(cs[q].Extent(), us[p])
    {
      var t := ChangeSource(us, vs, n, q);
      assert !Conflict(vs[t], us[p]);
    }
  }

  /** Making the allowed changes is choosing the allowed edits. */
  lemma {:induction false} MidIsApply<T>(
      us: seq<Edit>, vs: seq<Edit>, o: seq<T>, n: seq<T>, j: int, k: int)
    requires Aligned(o, n, vs, j, k)
    ensures Mid(o, n, vs, AllowedMask(us, vs), j, k) == Apply(o, AllowedChanges(us, vs, n), j)
    decreases |vs|
  {
    if vs != [] {
      var v := vs[0];
      MidIsApply(us, vs[1..], o, n, v.oldEnd, v.newEnd);
      assert AllowedMask(us, vs)[1..] == AllowedMask(us, vs[1..]);
      MidStep(us, vs, o, n, j, k, Mid(o, n, vs[1..], AllowedMask(us, vs[1..]), v.oldEnd, v.newEnd));
    }
  }

  lemma MidStep<T>(us: seq<Edit>, vs: seq<Edit>, o: seq<T>, n: seq<T>, j: int, k: int, m: seq<T>)
    requires vs != [] && Aligned(o, n, vs, j, k)
    requires m == Apply(o, AllowedChanges(us, vs[1..], n), vs[0].oldEnd)
    ensures o[j..vs[0].oldStart] + Pick(o, n, vs[0], Allowed(us, vs[0])) + m ==
            Apply(o, AllowedChanges(us, vs, n), j)
  {
    var v, cs := vs[0], AllowedChanges(us, vs[1..], n);
    if Allowed(us, v) {
      assert AllowedChanges(us, vs, n)[1..] == cs;
    } else {
      AllowedFit(us, vs[1..], o, n, v.oldEnd, v.newEnd);
      FitsLower(cs, |o|, v.oldEnd, j);
      FitsFirst(cs, |o|, v.oldEnd);
      ApplyFrom(o, cs, j, v.oldEnd);
      assert o[j..v.oldEnd] == o[j..v.oldStart] + o[v.oldStart..v.oldEnd];
    }
  }

  lemma FitsFirst<T>(cs: seq<Change<T>>, size: int, j: int)
    requires Fits(cs, size, j)
    ensures j <= if cs == [] then size else cs[0].start
  {
  }

  // ----- the rebase theorem

  /** The reviewed rows after the user's edits: the changes an all-pairs check allows, made on
      the other side of the unreviewed edits. */
  ghost function RebasedBase<T>(b: seq<T>, us: seq<Edit>, vs: seq<Edit>, n: seq<T>): seq<T> {
    Rebased(b, us, AllowedChanges(us, vs, n), 0, 0)
  }

  /** The last seen rows with only the allowed user edits made. */
  ghost function AllowedOnly<T>(o: seq<T>, us: seq<Edit>, vs: seq<Edit>, n: seq<T>): seq<T> {
    Apply(o, AllowedChanges(us, vs, n), 0)
  }

  /** The rebase theorem.  The rebased base reaches the new rows in two steps: first the
      unreviewed edits, each moved and none lost, then the user edits that touched one of them
      and no others.  With no such edit the first step is all there is. */
  lemma RebaseTheorem<T>(b: seq<T>, o: seq<T>, n: seq<T>, us: seq<Edit>, vs: seq<Edit>)
    requires Rep(b, us, o) && Rep(o, vs, n)
    ensures Aligned(RebasedBase(b, us, vs, n), AllowedOnly(o, us, vs, n),
                    Moved(us, AllowedChanges(us, vs, n), 0), 0, 0)
    ensures Rep(AllowedOnly(o, us, vs, n), Rest(vs, AllowedMask(us, vs), 0), n)
    ensures (forall k :: 0 <= k < |vs| ==> Allowed(us, vs[k])) ==> AllowedOnly(o, us, vs, n) == n
  {
    hide *;
    var cs, mask := AllowedChanges(us, vs, n), AllowedMask(us, vs);
    AllowedReady(b, o, n, us, vs);
    RebaseSquare(b, o, us, cs);
    MidIsApply(us, vs, o, n, 0, 0);
    SplitRep(o, n, vs, mask);
    BaseNames(b, o, n, us, vs);
    if forall k :: 0 <= k < |vs| ==> Allowed(us, vs[k]) {
      ChooseAll(o, n, vs, mask, 0, 0, 0);
    }
  }

  lemma BaseNames<T>(b: seq<T>, o: seq<T>, n: seq<T>, us: seq<Edit>, vs: seq<Edit>)
    ensures RebasedBase(b, us, vs, n) == Rebased(b, us, AllowedChanges(us, vs, n), 0, 0)
    ensures AllowedOnly(o, us, vs, n) == Apply(o, AllowedChanges(us, vs, n), 0)
  {
  }

  /** No unreviewed edit changes in the first step: it has the rows it had, on both sides. */
  lemma MovedKeepsRows<T>(b: seq<T>, o: seq<T>, n: seq<T>, us: seq<Edit>, vs: seq<Edit>, k: int)
    requires Rep(b, us, o) && Rep(o, vs, n) && 0 <= k < |us|
    ensures var m := Moved(us, AllowedChanges(us, vs, n), 0)[k];
            && Slice(RebasedBase(b, us, vs, n), m.oldStart, m.oldEnd)
               == Slice(b, us[k].oldStart, us[k].oldEnd)
            && Slice(AllowedOnly(o, us, vs, n), m.newStart, m.newEnd)
               == Slice(o, us[k].newStart, us[k].newEnd)
  {
    hide *;
    var cs := AllowedChanges(us, vs, n);
    AllowedReady(b, o, n, us, vs);
    BaseNames(b, o, n, us, vs);
    var segs, tail := SquareScript(b, o, us, cs, 0, 0, 0);
    ScriptRows(segs, tail, 0, 0, k);
    SpellsOut(segs[k], b, o, us[k]);
  }

  lemma AllowedReady<T>(b: seq<T>, o: seq<T>, n: seq<T>, us: seq<Edit>, vs: seq<Edit>)
    requires Rep(b, us, o) && Rep(o, vs, n)
    ensures Aligned(b, o, us, 0, 0) && Aligned(o, n, vs, 0, 0)
    ensures Fits(AllowedChanges(us, vs, n), |o|, 0) && Untouched(us, AllowedChanges(us, vs, n))
  {
    AllowedFit(us, vs, o, n, 0, 0);
    AllowedUntouched(us, vs, n);
  }

  lemma SpellsOut<T>(g: Segment<T>, b: seq<T>, o: seq<T>, u: Edit)
    requires Spells(g, b, o, u)
    ensures g.before == Slice(b, u.oldStart, u.oldEnd) && g.after == Slice(o, u.newStart, u.newEnd)
  {
  }

  ghost predicate IsNewRangeOf(us: seq<Edit>, v: Edit) {
    exists k :: 0 <= k < |us| && SpansNewRange(v, us[k])
  }

  ghost predicate SpansNewRange(v: Edit, u: Edit) {
    u.newStart <= u.newEnd && v.oldStart == u.newStart && v.oldEnd == u.newEnd
  }

  /** When the user's row edits are exactly the new ranges of unreviewed edits, as they are when
      a reject comes back from the buffer, none is allowed: the base stays as it is. */
  lemma RejectFeedback<T>(b: seq<T>, o: seq<T>, n: seq<T>, us: seq<Edit>, vs: seq<Edit>)
    requires Rep(b, us, o)
    requires forall t :: 0 <= t < |vs| ==> IsNewRangeOf(us, vs[t])
    ensures forall t :: 0 <= t < |vs| ==> !Allowed(us, vs[t])
    ensures RebasedBase(b, us, vs, n) == b
  {
    forall t | 0 <= t < |vs|
      ensures !Allowed(us, vs[t])
    {
      var k :| 0 <= k < |us| && SpansNewRange(vs[t], us[k]);
      assert Conflict(vs[t], us[k]);
    }
    NoneAllowed(us, vs, n);
    NoChanges(b, o, us, 0, 0);
    assert b[0..] == b;
  }

  lemma {:induction false} NoneAllowed<T>(us: seq<Edit>, vs: seq<Edit>, n: seq<T>)
    requires forall t :: 0 <= t < |vs| ==> !Allowed(us, vs[t])
    ensures AllowedChanges(us, vs, n) == []
  {
    if vs != [] {
      NoneAllowed(us, vs[1..], n);
    }
  }

  lemma {:induction false} NoChanges<T>(b: seq<T>, o: seq<T>, us: seq<Edit>, i: int, j: int)
    requires Aligned(b, o, us, i, j)
    ensures Rebased(b, us, [], i, j) == b[i..]
    decreases |us|
  {
    if us != [] {
      NoChanges(b, o, us[1..], us[0].oldEnd, us[0].newEnd);
      assert b[i..] == b[i..us[0].oldEnd] + b[us[0].oldEnd..];
    }
  }

  // ----- the two-cursor loop

  ghost predicate OrderedNew(us: seq<Edit>) {
    && (forall p :: 0 <= p < |us| ==> us[p].newStart <= us[p].newEnd)
    && (forall p, q :: 0 <= p < q < |us| ==> us[p].newEnd < us[q].newStart)
  }

  ghost predicate OrderedOld(vs: seq<Edit>) {
    && (forall p :: 0 <= p < |vs| ==> vs[p].oldStart <= vs[p].oldEnd)
    && (forall p, q :: 0 <= p < q < |vs| ==> vs[p].oldEnd < vs[q].oldStart)
  }

  lemma OrderedTail(us: seq<Edit>, vs: seq<Edit>)
    ensures OrderedNew(us) && us != [] ==> OrderedNew(us[1..])
    ensures OrderedOld(vs) && vs != [] ==> OrderedOld(vs[1..]) && vs[0].oldStart <= vs[0].oldEnd
  {
  }

  /** The user edits from `ni` on lie after the unreviewed edits before `oi`. */
  ghost predicate Passed(us: seq<Edit>, vs: seq<Edit>, oi: int, ni: int) {
    forall s, t :: 0 <= s < oi && s < |us| && ni <= t < |vs| && 0 <= t ==> After(vs[t], us[s])
  }

  ghost predicate NoneAllowedIn(us: seq<Edit>, vs: seq<Edit>, from: int, to: int) {
    forall t :: 0 <= from <= t < to && t < |vs| ==> !Allowed(us, vs[t])
  }

  ghost function SumDelta(us: seq<Edit>, from: nat, to: nat): int {
    if to <= from || to > |us| then 0 else SumDelta(us, from, to - 1) + us[to - 1].Delta()
  }

  /** The inner loop: passes the unreviewed edits that lie before the current user edit or touch
      it, and moves on to the next user edit while that overlaps the same unreviewed edit.
      Whether a conflict was seen is what the all-pairs check says. */
  method PassOldEdits(patch: seq<Edit>, edits: seq<Edit>, oi0: nat, ni0: nat, rebased0: int)
      returns (oi: nat, ni: nat, rebased: int, conflict: bool)
    requires OrderedNew(patch) && OrderedOld(edits)
    requires oi0 <= |patch| && 0 < ni0 <= |edits| && Passed(patch, edits, oi0, ni0 - 1)
    ensures oi0 <= oi <= |patch| && ni0 <= ni <= |edits|
    ensures rebased == rebased0 + SumDelta(patch, oi0, oi)
    ensures Passed(patch, edits, oi, ni)
    ensures conflict ==> NoneAllowedIn(patch, edits, ni0 - 1, ni)
    ensures !conflict ==> ni == ni0 && Allowed(patch, edits[ni - 1])
    ensures !conflict ==> Passed(patch, edits, oi, ni - 1)
    ensures !conflict && oi < |patch| ==> Before(edits[ni - 1], patch[oi])
  {
    oi, ni, rebased, conflict := oi0, ni0, rebased0, false;
    while oi < |patch| && !Before(edits[ni - 1], patch[oi])
      invariant oi0 <= oi <= |patch| && ni0 <= ni <= |edits|
      invariant rebased == rebased0 + SumDelta(patch, oi0, oi)
      invariant Passed(patch, edits, oi, ni)
      invariant conflict ==> NoneAllowedIn(patch, edits, ni0 - 1, ni)
      invariant !conflict ==> ni == ni0 && Passed(patch, edits, oi, ni - 1)
      decreases |patch| - oi + |edits| - ni
    {
      if After(edits[ni - 1], patch[oi]) {
        LaterEditsAfter(patch, edits, oi, ni);
        rebased := rebased + patch[oi].Delta();
        oi := oi + 1;
      } else {
        assert !Allowed(patch, edits[ni - 1]) by {
          assert Conflict(edits[ni - 1], patch[oi]);
        }
        conflict := true;
        if ni < |edits| && Overlaps(edits[ni], patch[oi]) {
          assert !Allowed(patch, edits[ni]) by {
            assert Conflict(edits[ni], patch[oi]);
          }
          ni := ni + 1;
        } else {
          NextEditAfter(patch, edits, oi, ni);
          rebased := rebased + patch[oi].Delta();
          oi := oi + 1;
        }
      }
    }
    if !conflict {
      NothingTouches(patch, edits, oi, ni);
    }
  }

  lemma LaterEditsAfter(us: seq<Edit>, vs: seq<Edit>, oi: nat, ni: nat)
    requires OrderedOld(vs) && oi < |us| && 0 < ni <= |vs| && After(vs[ni - 1], us[oi])
    requires Passed(us, vs, oi, ni - 1) || Passed(us, vs, oi, ni)
    ensures Passed(us, vs, oi, ni - 1) ==> Passed(us, vs, oi + 1, ni - 1)
    ensures Passed(us, vs, oi, ni) ==> Passed(us, vs, oi + 1, ni)
  {
    forall t | ni - 1 <= t < |vs|
      ensures After(vs[t], us[oi])
    {
      assert t > ni - 1 ==> vs[ni - 1].oldEnd < vs[t].oldStart;
    }
  }

  /** If the next user edit does not overlap the unreviewed edit the current one touches, it
      lies after it, and so do all later ones: looking ahead by overlap misses no conflict. */
  lemma NextEditAfter(us: seq<Edit>, vs: seq<Edit>, oi: nat, ni: nat)
    requires OrderedNew(us) && OrderedOld(vs) && oi < |us| && 0 < ni <= |vs|
    requires Conflict(vs[ni - 1], us[oi]) && Passed(us, vs, oi, ni)
    requires ni < |vs| ==> !Overlaps(vs[ni], us[oi])
    ensures Passed(us, vs, oi + 1, ni)
  {
    forall t | ni <= t < |vs|
      ensures After(vs[t], us[oi])
    {
      assert vs[ni - 1].oldEnd < vs[ni].oldStart;
      assert t > ni ==> vs[ni].oldEnd < vs[t].oldStart;
    }
  }

  lemma NothingTouches(us: seq<Edit>, vs: seq<Edit>, oi: nat, ni: nat)
    requires OrderedNew(us) && oi <= |us| && 0 < ni <= |vs| && Passed(us, vs, oi, ni - 1)
    requires oi < |us| ==> Before(vs[ni - 1], us[oi])
    ensures Allowed(us, vs[ni - 1])
  {
    var v := vs[ni - 1];
    forall k | 0 <= k < |us|
      ensures !Conflict(v, us[k])
    {
      if k < oi {
        assert After(v, us[k]);
      } else {
        assert k > oi ==> us[oi].newEnd < us[k].newStart;
      }
    }
  }

  // ----- following the loop on the rows

  lemma ChangesAfter<T>(us: seq<Edit>, vs: seq<Edit>, n: seq<T>, u: Edit)
    requires forall t :: 0 <= t < |vs| ==> After(vs[t], u)
    ensures var cs := AllowedChanges(us, vs, n); cs == [] || After(cs[0].Extent(), u)
  {
    var cs := AllowedChanges(us, vs, n);
    if cs != [] {
      var t := ChangeSource(us, vs, n, 0);
      assert After(vs[t], u);
    }
  }

  /** The unreviewed edits the inner loop passes are passed on the rows too. */
  lemma {:induction false} PassRows<T>(
      b: seq<T>, o: seq<T>, us: seq<Edit>, cs: seq<Change<T>>, a: nat, c: nat, i: int, j: int)
      returns (i': int, j': int)
    requires a <= c <= |us|
    requires Aligned(b, o, us[a..], i, j) && Fits(cs, |o|, j)
    requires forall s :: a <= s < c ==> cs == [] || After(cs[0].Extent(), us[s])
    ensures 0 <= i <= i' <= |b|
    ensures Aligned(b, o, us[c..], i', j') && Fits(cs, |o|, j')
    ensures Rebased(b, us[a..], cs, i, j) == b[i..i'] + Rebased(b, us[c..], cs, i', j')
    ensures j' - i' == j - i + SumDelta(us, a, c)
    decreases c
  {
    if a == c {
      i', j' := i, j;
      AlignedBounds(b, o, us[a..], i, j);
      hide *;
      assert b[i..i'] + Rebased(b, us[c..], cs, i', j') == Rebased(b, us[c..], cs, i', j');
      assert SumDelta(us, a, c) == 0 by {
        SumDeltaStep(us, a, c);
      }
    } else {
      hide *;
      var x, y := PassRows(b, o, us, cs, a, c - 1, i, j);
      var u := us[c - 1];
      assert us[c - 1..][0] == u && us[c - 1..][1..] == us[c..];
      AtEdit(b, o, us[c - 1..], cs, x, y, 0);
      GapLength(b, o, us[c - 1..], x, y);
      i', j' := u.oldEnd, u.newEnd;
      SumDeltaStep(us, a, c);
      Concat3(b, i, x, i', Rebased(b, us[c..], cs, i', j'));
    }
  }

  lemma AlignedBounds<T>(b: seq<T>, o: seq<T>, us: seq<Edit>, i: int, j: int)
    requires Aligned(b, o, us, i, j)
    ensures 0 <= i <= |b| && 0 <= j <= |o|
  {
  }

  lemma SumDeltaStep(us: seq<Edit>, a: nat, c: nat)
    requires a <= c <= |us|
    ensures a == c ==> SumDelta(us, a, c) == 0
    ensures a < c ==> SumDelta(us, a, c) == SumDelta(us, a, c - 1)
                      + (us[c - 1].newEnd - us[c - 1].newStart)
                      - (us[c - 1].oldEnd - us[c - 1].oldStart)
  {
  }

  lemma Concat3<T>(b: seq<T>, i: int, x: int, y: int, z: seq<T>)
    requires 0 <= i <= x <= y <= |b|
    ensures b[i..x] + (b[x..y] + z) == b[i..y] + z
  {
  }

  /** Skipping user edits that are not allowed loses no change. */
  lemma {:induction false} SkipNotAllowed<T>(us: seq<Edit>, vs: seq<Edit>, n: seq<T>, a: nat, c: nat)
    requires a <= c <= |vs| && NoneAllowedIn(us, vs, a, c)
    ensures AllowedChanges(us, vs[a..], n) == AllowedChanges(us, vs[c..], n)
    decreases c - a
  {
    if a < c {
      SkipNotAllowed(us, vs, n, a + 1, c);
      assert vs[a..][0] == vs[a] && vs[a..][1..] == vs[a + 1..];
    }
  }

  lemma TakeAllowed<T>(us: seq<Edit>, vs: seq<Edit>, n: seq<T>, a: nat)
    requires a < |vs| && Allowed(us, vs[a])
    ensures AllowedChanges(us, vs[a..], n) ==
            [Change(vs[a].oldStart, vs[a].oldEnd, Slice(n, vs[a].newStart, vs[a].newEnd))]
            + AllowedChanges(us, vs[a + 1..], n)
  {
    assert vs[a..][0] == vs[a] && vs[a..][1..] == vs[a + 1..];
  }

  /** Where the loop stands: `p` is the finished part of the base, `i` and `j` the positions on
      the two sides of the patch up to which it is finished, and what remains to be done is the
      rebase of the remaining edits over the remaining patch. */
  datatype Progress<T> = Progress(p: seq<T>, i: int, j: int)

  ghost predicate LoopState<T>(
      b: seq<T>, o: seq<T>, n: seq<T>, us: seq<Edit>, vs: seq<Edit>, oi: nat, ni: nat,
      at: Progress<T>)
  {
    oi <= |us| && ni <= |vs| && 0 <= at.i <= |b| &&
    var cs := AllowedChanges(us, vs[ni..], n);
    && Aligned(b, o, us[oi..], at.i, at.j)
    && Fits(cs, |o|, at.j)
    && at.p + Rebased(b, us[oi..], cs, at.i, at.j) == RebasedBase(b, us, vs, n)
  }

  lemma StateStarts<T>(b: seq<T>, o: seq<T>, n: seq<T>, us: seq<Edit>, vs: seq<Edit>)
    requires Rep(b, us, o) && Rep(o, vs, n)
    ensures LoopState(b, o, n, us, vs, 0, 0, Progress([], 0, 0))
  {
    AllowedReady(b, o, n, us, vs);
    assert us[0..] == us && vs[0..] == vs;
    hide Aligned, Fits, Rebased, AllowedChanges;
  }

  lemma StateEnds<T>(b: seq<T>, o: seq<T>, n: seq<T>, us: seq<Edit>, vs: seq<Edit>, oi: nat,
                     at: Progress<T>)
    requires LoopState(b, o, n, us, vs, oi, |vs|, at)
    ensures at.p + b[at.i..] == RebasedBase(b, us, vs, n)
  {
    assert AllowedChanges(us, vs[|vs|..], n) == [];
    NoChanges(b, o, us[oi..], at.i, at.j);
    hide Aligned, Fits, Rebased, AllowedChanges;
  }

  /** Passing unreviewed edits and skipping user edits that are not allowed. */
  lemma StatePasses<T>(b: seq<T>, o: seq<T>, n: seq<T>, us: seq<Edit>, vs: seq<Edit>,
                       oi: nat, ni: nat, at: Progress<T>, oi': nat, ni': nat)
      returns (at': Progress<T>)
    requires LoopState(b, o, n, us, vs, oi, ni, at)
    requires oi <= oi' <= |us| && ni <= ni' <= |vs|
    requires NoneAllowedIn(us, vs, ni, ni') && Passed(us, vs, oi', ni')
    ensures LoopState(b, o, n, us, vs, oi', ni', at')
    ensures 0 <= at.i <= |b| && 0 <= at'.i <= |b|
    ensures at.p + b[at.i..] == at'.p + b[at'.i..]
    ensures |at'.p| - at'.i == |at.p| - at.i
    ensures at'.j - at'.i == at.j - at.i + SumDelta(us, oi, oi')
  {
    hide *;
    var cs := AllowedChanges(us, vs[ni'..], n);
    StateParts(b, o, n, us, vs, oi, ni, at);
    SkipNotAllowed(us, vs, n, ni, ni');
    forall s | oi <= s < oi'
      ensures cs == [] || After(cs[0].Extent(), us[s])
    {
      PassedMeans(us, vs, oi', ni', s);
      ChangesAfter(us, vs[ni'..], n, us[s]);
    }
    var i', j' := PassRows(b, o, us, cs, oi, oi', at.i, at.j);
    at' := Progress(at.p + b[at.i..i'], i', j');
    assert b[at.i..] == b[at.i..i'] + b[i'..];
    assert at'.p + Rebased(b, us[oi'..], cs, i', j')
        == at.p + (b[at.i..i'] + Rebased(b, us[oi'..], cs, i', j'));
    StateFrom(b, o, n, us, vs, oi', ni', at', cs);
  }

  lemma PassedMeans(us: seq<Edit>, vs: seq<Edit>, oi: nat, ni: nat, s: nat)
    requires oi <= |us| && ni <= |vs| && Passed(us, vs, oi, ni) && s < oi
    ensures forall t :: 0 <= t < |vs[ni..]| ==> After(vs[ni..][t], us[s])
  {
  }

  // The state, taken apart and put together.

  lemma StateParts<T>(b: seq<T>, o: seq<T>, n: seq<T>, us: seq<Edit>, vs: seq<Edit>,
                      oi: nat, ni: nat, at: Progress<T>)
    requires LoopState(b, o, n, us, vs, oi, ni, at)
    ensures oi <= |us| && ni <= |vs| && 0 <= at.i <= |b|
    ensures Aligned(b, o, us[oi..], at.i, at.j)
    ensures Fits(AllowedChanges(us, vs[ni..], n), |o|, at.j)
    ensures at.p + Rebased(b, us[oi..], AllowedChanges(us, vs[ni..], n), at.i, at.j)
            == RebasedBase(b, us, vs, n)
  {
  }

  lemma StateFrom<T>(b: seq<T>, o: seq<T>, n: seq<T>, us: seq<Edit>, vs: seq<Edit>,
                     oi: nat, ni: nat, at: Progress<T>, cs: seq<Change<T>>)
    requires oi <= |us| && ni <= |vs| && 0 <= at.i <= |b|
    requires cs == AllowedChanges(us, vs[ni..], n)
    requires Aligned(b, o, us[oi..], at.i, at.j) && Fits(cs, |o|, at.j)
    requires at.p + Rebased(b, us[oi..], cs, at.i, at.j) == RebasedBase(b, us, vs, n)
    ensures LoopState(b, o, n, us, vs, oi, ni, at)
  {
    hide AllowedChanges, Aligned, Fits, Rebased, RebasedBase;
  }

  /** Where an allowed user edit lands in the base. */
  lemma StateApplies<T>(b: seq<T>, o: seq<T>, n: seq<T>, us: seq<Edit>, vs: seq<Edit>,
                        oi: nat, ni: nat, at: Progress<T>)
      returns (at': Progress<T>)
    requires LoopState(b, o, n, us, vs, oi, ni, at)
    requires oi <= |us| && ni < |vs| && Allowed(us, vs[ni])
    requires 0 <= vs[ni].newStart <= vs[ni].newEnd <= |n|
    requires oi < |us| ==> Before(vs[ni], us[oi])
    ensures LoopState(b, o, n, us, vs, oi, ni + 1, at')
    ensures var v := vs[ni];
            var x, y := v.oldStart - at.j + at.i, v.oldEnd - at.j + at.i;
            && at.i <= x <= y <= |b|
            && at' == Progress(at.p + b[at.i..x] + n[v.newStart..v.newEnd], y, v.oldEnd)
  {
    hide *;
    var v := vs[ni];
    var c := Change(v.oldStart, v.oldEnd, n[v.newStart..v.newEnd]);
    var cs, rest, us' := AllowedChanges(us, vs[ni..], n), AllowedChanges(us, vs[ni + 1..], n), us[oi..];
    StateParts(b, o, n, us, vs, oi, ni, at);
    TakeAllowed(us, vs, n, ni);
    SliceWithin(n, v.newStart, v.newEnd);
    assert cs == [c] + rest && cs[1..] == rest;
    BeforeExtent(c, v, us, oi);
    AtChange(b, o, us', cs, at.i, at.j, 0);
    var g := ChangeGap(b, o, us', c, at.i, at.j);
    var x, y := v.oldStart - at.j + at.i, v.oldEnd - at.j + at.i;
    AlignedBounds(b, o, us', y, c.end);
    SliceWithin(b, at.i, x);
    at' := Progress(at.p + g + c.rows, y, v.oldEnd);
    Regroup(at.p, g, c.rows, Rebased(b, us', rest, y, c.end));
    StateFrom(b, o, n, us, vs, oi, ni + 1, at', rest);
  }

  lemma SliceWithin<T>(s: seq<T>, from: int, to: int)
    requires 0 <= from <= to <= |s|
    ensures Slice(s, from, to) == s[from..to]
  {
  }

  lemma BeforeExtent<T>(c: Change<T>, v: Edit, us: seq<Edit>, oi: nat)
    requires c.start == v.oldStart && c.end == v.oldEnd && oi <= |us|
    requires oi < |us| ==> Before(v, us[oi])
    ensures us[oi..] == [] || Before(c.Extent(), us[oi..][0])
  {
  }

  /** An allowed user edit lands on rows that exist, and reaches the end of the base exactly
      when it reaches the end of the new rows. */
  lemma LandsInside<T>(b: seq<T>, o: seq<T>, n: seq<T>, us: seq<Edit>, v: Edit, i: int, j: int)
    requires Aligned(b, o, us, i, j) && StartsInside(b, o, us)
    requires us == [] || Before(v, us[0])
    requires v.Within(o, n) && v.oldStart < |o| && (v.oldEnd == |o| <==> v.newEnd == |n|)
    ensures v.oldStart - j + i < |b|
    ensures v.oldEnd - j + i == |b| <==> v.newEnd == |n|
  {
    GapLength(b, o, us, i, j);
  }

  // ----- the loop

  lemma RepOrdered<T>(b: seq<T>, es: seq<Edit>, s: seq<T>)
    requires Rep(b, es, s)
    ensures OrderedNew(es) && OrderedOld(es)
  {
    RepInverse(b, es, s);
    forall p, q | 0 <= p < q < |es|
      ensures es[p].newEnd < es[q].newStart && es[p].oldEnd < es[q].oldStart
    {
      SeparatedNew(es, -1, p, q);
      SeparatedNew(Inverse(es), -1, p, q);
    }
    forall p | 0 <= p < |es|
      ensures es[p].newStart <= es[p].newEnd && es[p].oldStart <= es[p].oldEnd
    {
      SeparatedStarts(es, -1, p);
      SeparatedStarts(Inverse(es), -1, p);
    }
  }

  /** A signed row turned back into an unsigned one: defined only where the cast does not wrap. */
  function AsRow(row: int): (r: nat)
    requires row >= 0
    ensures r == row
  {
    row
  }

  /** The engine's rebase: two cursors, two running deltas, and one byte replacement for each
      user edit that touches no unreviewed edit.  `o` are the rows last seen. */
  method ApplyNonConflictingEdits(
      patch: seq<Edit>, edits: seq<Edit>, oldText: string, newText: string, ghost o: seq<string>)
      returns (text: string, hasMadeChanges: bool)
    requires Rep(Rows(oldText), patch, o) && Rep(o, edits, Rows(newText))
    ensures Rows(text) == RebasedBase(Rows(oldText), patch, edits, Rows(newText))
    ensures hasMadeChanges <==> exists k :: 0 <= k < |edits| && Allowed(patch, edits[k])
  {
    hide *;
    ghost var b, n := Rows(oldText), Rows(newText);
    RepOrdered(b, patch, o);
    RepOrdered(o, edits, n);
    StateStarts(b, o, n, patch, edits);
    ghost var at := Progress([], 0, 0);
    var oi, ni, applied, rebased := 0, 0, 0, 0;
    text, hasMadeChanges := oldText, false;
    PassedNone(patch, edits);
    while ni < |edits|
      invariant oi <= |patch| && ni <= |edits|
      invariant LoopState(b, o, n, patch, edits, oi, ni, at)
      invariant Passed(patch, edits, oi, ni)
      invariant 0 <= at.i <= |b| && Rows(text) == at.p + b[at.i..]
      invariant applied == |at.p| - at.i && rebased == at.j - at.i
      invariant hasMadeChanges <==> exists k :: 0 <= k < ni && Allowed(patch, edits[k])
    {
      ghost var oi0 := oi;
      var ni0 := ni;
      var conflict;
      oi, ni, rebased, conflict := PassOldEdits(patch, edits, oi, ni + 1, rebased);
      if conflict {
        at := StatePasses(b, o, n, patch, edits, oi0, ni0, at, oi, ni);
        NoneAllowedMeans(patch, edits, ni0, ni);
      } else {
        NoneAllowedMeans(patch, edits, ni0, ni0);
        at := StatePasses(b, o, n, patch, edits, oi0, ni0, at, oi, ni0);
        var edit := edits[ni0];
        ghost var at' := EditLands(b, o, newText, patch, edits, oi, ni0, at, text);
        var start := AsRow(edit.oldStart + applied - rebased);
        var end := AsRow(edit.oldEnd + applied - rebased);
        text := ReplaceRows(text, start, end, newText, AsRow(edit.newStart), AsRow(edit.newEnd));
        applied := applied + (edit.newEnd - edit.newStart) - (end - start);
        at := at';
        hasMadeChanges := true;
      }
      StateBounds(b, o, n, patch, edits, oi, ni, at);
    }
    StateEnds(b, o, n, patch, edits, oi, at);
  }

  lemma NoneAllowedMeans(us: seq<Edit>, vs: seq<Edit>, from: nat, to: nat)
    ensures from == to ==> NoneAllowedIn(us, vs, from, to)
    ensures NoneAllowedIn(us, vs, from, to) ==>
              forall t :: from <= t < to && t < |vs| ==> !Allowed(us, vs[t])
  {
  }

  lemma PassedNone(us: seq<Edit>, vs: seq<Edit>)
    ensures Passed(us, vs, 0, 0)
  {
  }

  lemma StateBounds<T>(b: seq<T>, o: seq<T>, n: seq<T>, us: seq<Edit>, vs: seq<Edit>,
                       oi: nat, ni: nat, at: Progress<T>)
    requires LoopState(b, o, n, us, vs, oi, ni, at)
    ensures 0 <= at.i <= |b|
  {
  }

  /** An allowed user edit, translated by the two deltas: the rows lie inside the base as it
      stands, so no cast wraps, and replacing bytes there is splicing rows. */
  lemma EditLands(b: seq<string>, o: seq<string>, newText: string, us: seq<Edit>, vs: seq<Edit>,
                  oi: nat, ni: nat, at: Progress<string>, text: string)
      returns (at': Progress<string>)
    requires Rep(b, us, o) && Rep(o, vs, Rows(newText))
    requires oi <= |us| && LoopState(b, o, Rows(newText), us, vs, oi, ni, at)
    requires ni < |vs| && Allowed(us, vs[ni])
    requires oi < |us| ==> Before(vs[ni], us[oi])
    requires 0 <= at.i <= |b| && Rows(text) == at.p + b[at.i..]
    ensures LoopState(b, o, Rows(newText), us, vs, oi, ni + 1, at')
    ensures var v, shift := vs[ni], |at.p| - at.i - (at.j - at.i);
            && 0 <= v.oldStart + shift <= v.oldEnd + shift <= |Rows(text)|
            && 0 <= v.newStart <= v.newEnd
            && 0 <= at'.i <= |b|
            && Rows(ReplaceRows(text, v.oldStart + shift, v.oldEnd + shift,
                                newText, v.newStart, v.newEnd)) == at'.p + b[at'.i..]
            && at'.j - at'.i == at.j - at.i
            && |at'.p| - at'.i == |at.p| - at.i + (v.newEnd - v.newStart) - (v.oldEnd - v.oldStart)
  {
    hide *;
    var n := Rows(newText);
    var v := vs[ni];
    StateFacts(b, o, n, us, vs, oi, ni, at);
    LandsInside(b, o, n, us[oi..], v, at.i, at.j);
    at' := StateApplies(b, o, n, us, vs, oi, ni, at);
    var x, y := v.oldStart - at.j + at.i, v.oldEnd - at.j + at.i;
    SpliceAt(b, at, x, y, text, newText, v.newStart, v.newEnd);
  }

  lemma StateFacts<T>(b: seq<T>, o: seq<T>, n: seq<T>, us: seq<Edit>, vs: seq<Edit>,
                      oi: nat, ni: nat, at: Progress<T>)
    requires Rep(b, us, o) && Rep(o, vs, n)
    requires LoopState(b, o, n, us, vs, oi, ni, at) && ni < |vs|
    ensures Aligned(b, o, us[oi..], at.i, at.j) && StartsInside(b, o, us[oi..])
    ensures vs[ni].Within(o, n) && (vs[ni].oldEnd == |o| <==> vs[ni].newEnd == |n|)
    ensures 0 <= vs[ni].oldStart < |o| && vs[ni].oldStart <= vs[ni].oldEnd
    ensures 0 <= vs[ni].newStart < |n| && vs[ni].newStart <= vs[ni].newEnd <= |n|
  {
    EditFacts(o, n, vs, 0, 0, ni);
  }

  lemma SpliceAt(b: seq<string>, at: Progress<string>, x: int, y: int, text: string,
                 newText: string, c: nat, d: nat)
    requires 0 <= at.i <= x <= y <= |b| && x < |b| && Rows(text) == at.p + b[at.i..]
    requires c <= d <= |Rows(newText)| && c < |Rows(newText)|
    requires y == |b| <==> d == |Rows(newText)|
    ensures var a, e := x + |at.p| - at.i, y + |at.p| - at.i;
            Rows(ReplaceRows(text, a, e, newText, c, d)) ==
            at.p + b[at.i..x] + Rows(newText)[c..d] + b[y..]
  {
    var a, e := x + |at.p| - at.i, y + |at.p| - at.i;
    hide *;
    ReplaceRowsSplices(text, a, e, newText, c, d);
    assert Rows(text)[..a] == at.p + b[at.i..x];
    assert Rows(text)[e..] == b[y..];
  }
}

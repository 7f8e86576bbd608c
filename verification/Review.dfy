/** Keeping, committing and rejecting unreviewed edits, and undoing a reject.

    Each of the three walks the unreviewed edits once and decides edit by edit.  Keeping and
    committing make the chosen edits in the reviewed text, in place and with a running delta;
    rejecting puts the reviewed rows back into the buffer.  All are proved against `Mid`, the
    rows with the chosen edits made and the others not. */
module Review {
  import opened Texts
  import opened Patches
  import opened Rebase

  // ----- making chosen edits in place

  /** Where a walk over the edits stands on the rows. */
  ghost predicate MidState<T>(b: seq<T>, s: seq<T>, es: seq<Edit>, chosen: seq<bool>, k: nat,
                              at: Progress<T>)
  {
    k <= |es| == |chosen| && 0 <= at.i <= |b| &&
    Aligned(b, s, es, 0, 0) && Aligned(b, s, es[k..], at.i, at.j) &&
    at.p + Mid(b, s, es[k..], chosen[k..], at.i, at.j) == Mid(b, s, es, chosen, 0, 0)
  }

  lemma MidStarts<T>(b: seq<T>, s: seq<T>, es: seq<Edit>, chosen: seq<bool>)
    requires |chosen| == |es| && Aligned(b, s, es, 0, 0)
    ensures MidState(b, s, es, chosen, 0, Progress([], 0, 0))
  {
    assert es[0..] == es && chosen[0..] == chosen;
  }

  /** The next edit is made or passed, as chosen. */
  lemma MidSteps<T>(b: seq<T>, s: seq<T>, es: seq<Edit>, chosen: seq<bool>, k: nat,
                    at: Progress<T>) returns (at': Progress<T>)
    requires MidState(b, s, es, chosen, k, at) && k < |es|
    ensures var e := es[k];
            && e.Within(b, s) && at.i <= e.oldStart
            && at' == Progress(at.p + b[at.i..e.oldStart] + Pick(b, s, e, chosen[k]),
                               e.oldEnd, e.newEnd)
    ensures MidState(b, s, es, chosen, k + 1, at')
  {
    var e, rest, flags := es[k], es[k + 1..], chosen[k + 1..];
    assert es[k..][0] == e && es[k..][1..] == rest;
    assert chosen[k..][0] == chosen[k] && chosen[k..][1..] == flags;
    at' := Progress(at.p + b[at.i..e.oldStart] + Pick(b, s, e, chosen[k]), e.oldEnd, e.newEnd);
    var tail := Mid(b, s, rest, flags, e.oldEnd, e.newEnd);
    assert Mid(b, s, es[k..], chosen[k..], at.i, at.j)
        == b[at.i..e.oldStart] + Pick(b, s, e, chosen[k]) + tail;
    hide Mid, Aligned, Pick;
    Regroup(at.p, b[at.i..e.oldStart], Pick(b, s, e, chosen[k]), tail);
  }

  /** Once no edit that remains is chosen, the rest of the old rows is all that is missing. */
  lemma MidEnds<T>(b: seq<T>, s: seq<T>, es: seq<Edit>, chosen: seq<bool>, k: nat,
                   at: Progress<T>)
    requires MidState(b, s, es, chosen, k, at)
    requires forall t :: k <= t < |es| ==> !chosen[t]
    ensures at.p + b[at.i..] == Mid(b, s, es, chosen, 0, 0)
  {
    ChooseNone(b, s, es[k..], chosen[k..], at.i, at.j);
  }

  lemma MidBounds<T>(b: seq<T>, s: seq<T>, es: seq<Edit>, chosen: seq<bool>, k: nat,
                     at: Progress<T>)
    requires MidState(b, s, es, chosen, k, at)
    ensures 0 <= at.i <= |b| && k <= |es| == |chosen|
  {
  }

  /** An edit that is passed leaves the text as it is. */
  lemma EditPassed<T>(b: seq<T>, s: seq<T>, es: seq<Edit>, chosen: seq<bool>, k: nat,
                      at: Progress<T>) returns (at': Progress<T>)
    requires MidState(b, s, es, chosen, k, at) && k < |es| && !chosen[k]
    ensures MidState(b, s, es, chosen, k + 1, at')
    ensures 0 <= at.i <= |b| && 0 <= at'.i <= |b| && at.p + b[at.i..] == at'.p + b[at'.i..]
    ensures |at'.p| - at'.i == |at.p| - at.i
  {
    hide *;
    MidBounds(b, s, es, chosen, k, at);
    at' := MidSteps(b, s, es, chosen, k, at);
    MidBounds(b, s, es, chosen, k + 1, at');
    PickPassed(b, s, es[k]);
    Rejoin(at.p, b, at.i, es[k].oldStart, es[k].oldEnd);
  }

  lemma Rejoin<T>(p: seq<T>, b: seq<T>, i: int, x: int, y: int)
    requires 0 <= i <= x <= y <= |b|
    ensures p + b[i..x] + b[x..y] + b[y..] == p + b[i..]
  {
    assert b[i..] == b[i..x] + b[x..y] + b[y..];
  }

  lemma PickPassed<T>(b: seq<T>, s: seq<T>, e: Edit)
    requires e.Within(b, s)
    ensures 0 <= e.oldStart <= e.oldEnd <= |b|
    ensures Pick(b, s, e, false) == b[e.oldStart..e.oldEnd]
  {
  }

  /** An edit that is made: the rows it replaces lie inside the text as it stands, and
      replacing their bytes is splicing the rows. */
  lemma EditMade(b: seq<string>, snapshot: string, es: seq<Edit>, chosen: seq<bool>, k: nat,
                 at: Progress<string>, text: string) returns (at': Progress<string>)
    requires Rep(b, es, Rows(snapshot))
    requires MidState(b, Rows(snapshot), es, chosen, k, at) && k < |es| && chosen[k]
    requires 0 <= at.i <= |b| && Rows(text) == at.p + b[at.i..]
    ensures MidState(b, Rows(snapshot), es, chosen, k + 1, at')
    ensures var e, delta := es[k], |at.p| - at.i;
            && 0 <= e.oldStart + delta <= e.oldEnd + delta && 0 <= e.newStart <= e.newEnd
            && 0 <= at'.i <= |b|
            && Rows(ReplaceRows(text, e.oldStart + delta, e.oldEnd + delta,
                                snapshot, e.newStart, e.newEnd)) == at'.p + b[at'.i..]
            && |at'.p| - at'.i == delta + (e.newEnd - e.newStart) - (e.oldEnd - e.oldStart)
            && at'.i == e.oldEnd && at'.j == e.newEnd
  {
    hide *;
    var s, e := Rows(snapshot), es[k];
    RepEdit(b, s, es, k);
    at' := MidSteps(b, s, es, chosen, k, at);
    PickChosen(b, s, e);
    SpliceAt(b, at, e.oldStart, e.oldEnd, text, snapshot, e.newStart, e.newEnd);
  }

  lemma RepEdit<T>(b: seq<T>, s: seq<T>, es: seq<Edit>, k: nat)
    requires Rep(b, es, s) && k < |es|
    ensures es[k].Within(b, s)
    ensures 0 <= es[k].oldStart <= es[k].oldEnd <= |b| && es[k].oldStart < |b|
    ensures 0 <= es[k].newStart <= es[k].newEnd <= |s| && es[k].newStart < |s|
    ensures es[k].oldEnd == |b| <==> es[k].newEnd == |s|
  {
    EditFacts(b, s, es, 0, 0, k);
  }

  lemma PickChosen<T>(b: seq<T>, s: seq<T>, e: Edit)
    requires e.Within(b, s)
    ensures Pick(b, s, e, true) == s[e.newStart..e.newEnd]
  {
  }

  // ----- keeping a range

  /** An edit is kept when the range touches its new rows, ends included. */
  predicate InRange(e: Edit, startRow: nat, endRow: nat) {
    !(endRow < e.newStart || startRow > e.newEnd)
  }

  predicate RowIn(row: int, first: int, last: int) {
    first <= row <= last
  }

  /** The range and the edit have a row in common, the row the edit ends before counted in. */
  lemma InRangeMeans(e: Edit, startRow: nat, endRow: nat)
    requires startRow <= endRow && e.newStart <= e.newEnd
    ensures InRange(e, startRow, endRow) <==>
            exists row :: RowIn(row, startRow, endRow) && RowIn(row, e.newStart, e.newEnd)
  {
    var row := if startRow < e.newStart then e.newStart else startRow;
    if InRange(e, startRow, endRow) {
      assert RowIn(row, startRow, endRow) && RowIn(row, e.newStart, e.newEnd);
    }
  }

  function KeepMask(es: seq<Edit>, startRow: nat, endRow: nat): (mask: seq<bool>)
    ensures |mask| == |es|
    ensures forall k :: 0 <= k < |es| ==> mask[k] == InRange(es[k], startRow, endRow)
  {
    seq(|es|, k requires 0 <= k < |es| => InRange(es[k], startRow, endRow))
  }

  lemma RestNext(es: seq<Edit>, chosen: seq<bool>, k: nat, delta: int)
    requires k < |es| == |chosen|
    ensures Rest(es[k..], chosen[k..], delta) ==
            if chosen[k]
            then Rest(es[k + 1..], chosen[k + 1..], delta + es[k].Delta())
            else [es[k].ShiftOld(delta)] + Rest(es[k + 1..], chosen[k + 1..], delta)
    ensures es[k].Delta() == (es[k].newEnd - es[k].newStart) - (es[k].oldEnd - es[k].oldStart)
    ensures es[k].ShiftOld(delta) ==
            Edit(es[k].oldStart + delta, es[k].oldEnd + delta, es[k].newStart, es[k].newEnd)
  {
    assert es[k..][1..] == es[k + 1..] && chosen[k..][1..] == chosen[k + 1..];
  }

  /** Keeping the edits a row range touches: each edit's old rows are moved by what was kept
      before it; a kept edit is made in the base and dropped. */
  method KeepEditsInRange(es: seq<Edit>, base: string, snapshot: string,
                          startRow: nat, endRow: nat)
      returns (base': string, kept: seq<Edit>)
    requires Rep(Rows(base), es, Rows(snapshot))
    ensures Aligned(Rows(base), Rows(snapshot), es, 0, 0)
    ensures Rows(base') ==
            Mid(Rows(base), Rows(snapshot), es, KeepMask(es, startRow, endRow), 0, 0)
    ensures kept == Rest(es, KeepMask(es, startRow, endRow), 0)
    ensures Rep(Rows(base'), kept, Rows(snapshot))
  {
    hide *;
    ghost var b, s, mask := Rows(base), Rows(snapshot), KeepMask(es, startRow, endRow);
    RepParts(b, es, s);
    MidStarts(b, s, es, mask);
    ghost var at := Progress([], 0, 0);
    base', kept := base, [];
    var delta := 0;
    assert es[0..] == es && mask[0..] == mask;
    for k := 0 to |es|
      invariant MidState(b, s, es, mask, k, at)
      invariant 0 <= at.i <= |b| && Rows(base') == at.p + b[at.i..]
      invariant delta == |at.p| - at.i
      invariant kept + Rest(es[k..], mask[k..], delta) == Rest(es, mask, 0)
    {
      RestNext(es, mask, k, delta);
      var edit := es[k];
      if InRange(edit, startRow, endRow) {
        ghost var at' := EditMade(b, snapshot, es, mask, k, at, base');
        var start, end := AsRow(edit.oldStart + delta), AsRow(edit.oldEnd + delta);
        base' := ReplaceRows(base', start, end, snapshot, AsRow(edit.newStart), AsRow(edit.newEnd));
        delta := delta + (edit.newEnd - edit.newStart) - (end - start);
        at := at';
      } else {
        at := EditPassed(b, s, es, mask, k, at);
        kept := kept + [Edit(edit.oldStart + delta, edit.oldEnd + delta, edit.newStart, edit.newEnd)];
      }
    }
    MidEnds(b, s, es, mask, |es|, at);
    RestOfNone(delta);
    assert es[|es|..] == [] && mask[|es|..] == [];
    SplitRep(b, s, es, mask);
  }

  lemma RestOfNone(delta: int)
    ensures Rest([], [], delta) == []
  {
  }

  /** Keeping a range that covers every row is keeping all: the base becomes the snapshot and
      no edit is left, as when all edits are kept at once. */
  lemma KeepWholeIsKeepAll(es: seq<Edit>, b: seq<string>, s: seq<string>, endRow: nat)
    requires Rep(b, es, s) && endRow >= |s| - 1
    ensures Aligned(b, s, es, 0, 0)
    ensures Mid(b, s, es, KeepMask(es, 0, endRow), 0, 0) == s
    ensures Rest(es, KeepMask(es, 0, endRow), 0) == []
  {
    var mask := KeepMask(es, 0, endRow);
    forall k | 0 <= k < |es|
      ensures mask[k]
    {
      RepEdit(b, s, es, k);
    }
    hide *;
    RepParts(b, es, s);
    ChooseAll(b, s, es, mask, 0, 0, 0);
    assert s[0..] == s;
  }

  // ----- making every edit

  lemma MidGap<T>(b: seq<T>, s: seq<T>, es: seq<Edit>, chosen: seq<bool>, k: nat, at: Progress<T>)
    requires MidState(b, s, es, chosen, k, at) && k < |es|
    ensures es[k].oldStart - at.i == es[k].newStart - at.j
  {
    GapLength(b, s, es[k..], at.i, at.j);
  }

  /** The engine's central check, for every base, patch and snapshot: making the unreviewed
      edits in the reviewed text one after the other, at their new rows, gives the snapshot. */
  method ReplayEdits(es: seq<Edit>, base: string, snapshot: string) returns (text: string)
    requires Rep(Rows(base), es, Rows(snapshot))
    ensures text == snapshot
  {
    hide *;
    ghost var b, s, mask := Rows(base), Rows(snapshot), AllOf(es);
    RepParts(b, es, s);
    MidStarts(b, s, es, mask);
    ghost var at := Progress([], 0, 0);
    text := base;
    for k := 0 to |es|
      invariant MidState(b, s, es, mask, k, at)
      invariant 0 <= at.i <= |b| && Rows(text) == at.p + b[at.i..] && |at.p| == at.j
    {
      MidGap(b, s, es, mask, k, at);
      ghost var at' := EditMade(b, snapshot, es, mask, k, at, text);
      var edit := es[k];
      var start := AsRow(edit.newStart);
      var end := AsRow(edit.newStart + (edit.oldEnd - edit.oldStart));
      text := ReplaceRows(text, start, end, snapshot, start, AsRow(edit.newEnd));
      at := at';
    }
    MidEnds(b, s, es, mask, |es|, at);
    ChooseAll(b, s, es, mask, 0, 0, 0);
    assert s[0..] == s;
    JoinOfRows(text);
    JoinOfRows(snapshot);
  }

  function AllOf(es: seq<Edit>): (mask: seq<bool>)
    ensures |mask| == |es| && forall k :: 0 <= k < |es| ==> mask[k]
  {
    seq(|es|, k => true)
  }

  // ----- keeping what was committed

  /** A committed edit matches an unreviewed one: the same old rows, replaced by the same text. */
  predicate Matches(c: Edit, u: Edit, snapshot: string, git: string) {
    c.oldStart == u.oldStart && c.oldEnd == u.oldEnd &&
    0 <= u.newStart <= u.newEnd && 0 <= c.newStart <= c.newEnd &&
    SliceRows(snapshot, u.newStart, u.newEnd) == SliceRows(git, c.newStart, c.newEnd)
  }

  /** The all-pairs check: some committed edit matches. */
  ghost predicate Committed(cs: seq<Edit>, u: Edit, snapshot: string, git: string) {
    exists t :: 0 <= t < |cs| && Matches(cs[t], u, snapshot, git)
  }

  /** The committed edit replaces the rows the unreviewed one replaces, by the same rows. */
  ghost predicate SameRows(c: Edit, u: Edit, s: seq<string>, g: seq<string>) {
    && c.oldStart == u.oldStart && c.oldEnd == u.oldEnd
    && Slice(s, u.newStart, u.newEnd) == Slice(g, c.newStart, c.newEnd)
  }

  /** What the check means on rows: when the committed edits are a patch to the committed text, an
      unreviewed edit counts as committed exactly when one of them does the same to the same rows. */
  lemma CommittedOnRows(cs: seq<Edit>, us: seq<Edit>, base: string, snapshot: string, git: string, k: nat)
    requires Rep(Rows(base), us, Rows(snapshot)) && Rep(Rows(base), cs, Rows(git)) && k < |us|
    ensures Committed(cs, us[k], snapshot, git) <==>
            exists t :: 0 <= t < |cs| && SameRows(cs[t], us[k], Rows(snapshot), Rows(git))
  {
    hide Rows, Rep, SliceRows, SameRows, Matches;
    forall t | 0 <= t < |cs|
      ensures Matches(cs[t], us[k], snapshot, git) <==> SameRows(cs[t], us[k], Rows(snapshot), Rows(git))
    {
      MatchOnRows(cs, us, base, snapshot, git, t, k);
    }
  }

  lemma MatchOnRows(cs: seq<Edit>, us: seq<Edit>, base: string, snapshot: string, git: string, t: nat, k: nat)
    requires Rep(Rows(base), us, Rows(snapshot)) && Rep(Rows(base), cs, Rows(git)) && k < |us| && t < |cs|
    ensures Matches(cs[t], us[k], snapshot, git) <==> SameRows(cs[t], us[k], Rows(snapshot), Rows(git))
  {
    hide Rows, Rep, SliceRows, RowStart;
    RepEdit(Rows(base), Rows(snapshot), us, k);
    RepEdit(Rows(base), Rows(git), cs, t);
    if cs[t].oldEnd == us[k].oldEnd {
      SameTextIsSameRows(snapshot, git, us[k].newStart, us[k].newEnd, cs[t].newStart, cs[t].newEnd);
    }
  }

  ghost function CommitMask(cs: seq<Edit>, us: seq<Edit>, snapshot: string, git: string)
      : (mask: seq<bool>)
    ensures |mask| == |us|
    ensures forall k :: 0 <= k < |us| ==> mask[k] == Committed(cs, us[k], snapshot, git)
  {
    seq(|us|, k requires 0 <= k < |us| => Committed(cs, us[k], snapshot, git))
  }

  /** What a line diff promises: its edits are ordered and never meet. */
  ghost predicate LineDiff(cs: seq<Edit>) {
    && OrderedOld(cs)
    && forall t :: 0 <= t < |cs| ==> 0 <= cs[t].newStart <= cs[t].newEnd
  }

  /** No committed edit before `ci` matches an unreviewed edit from `ui` on. */
  ghost predicate Settled(cs: seq<Edit>, us: seq<Edit>, ci: nat, ui: nat, snapshot: string,
                          git: string)
  {
    forall t, k :: 0 <= t < ci && t < |cs| && ui <= k < |us| ==>
      !Matches(cs[t], us[k], snapshot, git)
  }

  /** Keeping what was committed: one pass over both lists.  An unreviewed edit is made in the
      base exactly when some committed edit has the same old rows and the same new text. */
  method KeepCommittedEdits(us: seq<Edit>, base: string, snapshot: string, git: string,
                            committed: seq<Edit>) returns (base': string)
    requires Rep(Rows(base), us, Rows(snapshot)) && LineDiff(committed)
    ensures Aligned(Rows(base), Rows(snapshot), us, 0, 0)
    ensures Rows(base') == Mid(Rows(base), Rows(snapshot), us,
                               CommitMask(committed, us, snapshot, git), 0, 0)
    ensures Rep(Rows(base'), Rest(us, CommitMask(committed, us, snapshot, git), 0), Rows(snapshot))
  {
    hide *;
    ghost var b, s, mask := Rows(base), Rows(snapshot), CommitMask(committed, us, snapshot, git);
    RepParts(b, us, s);
    MidStarts(b, s, us, mask);
    ghost var at := Progress([], 0, 0);
    base' := base;
    var ui, delta := 0, 0;
    SettledStarts(committed, us, snapshot, git);
    for ci := 0 to |committed|
      invariant ui <= |us| && MidState(b, s, us, mask, ui, at)
      invariant 0 <= at.i <= |b| && Rows(base') == at.p + b[at.i..] && delta == |at.p| - at.i
      invariant Settled(committed, us, ci, ui, snapshot, git)
    {
      var c := committed[ci];
      while ui < |us| && !(!SameOld(c, us[ui]) && us[ui].oldStart >= c.oldEnd)
        invariant ui <= |us| && MidState(b, s, us, mask, ui, at)
        invariant 0 <= at.i <= |b| && Rows(base') == at.p + b[at.i..] && delta == |at.p| - at.i
        invariant Settled(committed, us, ci, ui, snapshot, git)
      {
        RepEdit(b, s, us, ui);
        MatchDecides(committed, us, ci, ui, snapshot, git);
        if SameOld(c, us[ui]) && SameText(c, us[ui], snapshot, git) {
          ghost var at' := EditMade(b, snapshot, us, mask, ui, at, base');
          var start, end := AsRow(us[ui].oldStart + delta), AsRow(us[ui].oldEnd + delta);
          base' := ReplaceRows(base', start, end, snapshot, AsRow(us[ui].newStart), AsRow(us[ui].newEnd));
          delta := delta + (us[ui].newEnd - us[ui].newStart) - (end - start);
          at := at';
        } else {
          at := EditPassed(b, s, us, mask, ui, at);
        }
        SettledNext(committed, us, ci, ui, snapshot, git);
        ui := ui + 1;
      }
      RepOrdered(b, us, s);
      SettledBreak(committed, us, ci, ui, snapshot, git);
    }
    NoneLeft(committed, us, ui, snapshot, git);
    MidEnds(b, s, us, mask, ui, at);
    SplitRep(b, s, us, mask);
  }

  predicate SameOld(c: Edit, u: Edit) {
    c.oldStart == u.oldStart && c.oldEnd == u.oldEnd
  }

  predicate SameText(c: Edit, u: Edit, snapshot: string, git: string)
    requires 0 <= u.newStart <= u.newEnd && 0 <= c.newStart <= c.newEnd
  {
    SliceRows(snapshot, u.newStart, u.newEnd) == SliceRows(git, c.newStart, c.newEnd)
  }

  lemma SettledStarts(cs: seq<Edit>, us: seq<Edit>, snapshot: string, git: string)
    ensures Settled(cs, us, 0, 0, snapshot, git)
  {
  }

  lemma SettledNext(cs: seq<Edit>, us: seq<Edit>, ci: nat, ui: nat, snapshot: string, git: string)
    requires Settled(cs, us, ci, ui, snapshot, git)
    ensures Settled(cs, us, ci, ui + 1, snapshot, git)
  {
  }

  /** Whether the current committed edit matches decides it for all of them: earlier ones are
      settled, later ones start past this unreviewed edit. */
  lemma MatchDecides(cs: seq<Edit>, us: seq<Edit>, ci: nat, ui: nat, snapshot: string, git: string)
    requires LineDiff(cs) && ci < |cs| && ui < |us| && Settled(cs, us, ci, ui, snapshot, git)
    requires SameOld(cs[ci], us[ui]) || us[ui].oldStart < cs[ci].oldEnd
    requires 0 <= us[ui].newStart <= us[ui].newEnd
    ensures 0 <= cs[ci].newStart <= cs[ci].newEnd
    ensures CommitMask(cs, us, snapshot, git)[ui] <==>
              SameOld(cs[ci], us[ui]) && SameText(cs[ci], us[ui], snapshot, git)
  {
    forall t | 0 <= t < |cs| && t != ci
      ensures !Matches(cs[t], us[ui], snapshot, git)
    {
      if t > ci {
        assert cs[ci].oldEnd < cs[t].oldStart;
      }
    }
    assert Matches(cs[ci], us[ui], snapshot, git) <==>
           SameOld(cs[ci], us[ui]) && SameText(cs[ci], us[ui], snapshot, git);
  }

  lemma SettledBreak(cs: seq<Edit>, us: seq<Edit>, ci: nat, ui: nat, snapshot: string, git: string)
    requires LineDiff(cs) && OrderedOld(us) && ci < |cs| && ui <= |us|
    requires Settled(cs, us, ci, ui, snapshot, git)
    requires ui < |us| ==> !SameOld(cs[ci], us[ui]) && us[ui].oldStart >= cs[ci].oldEnd
    ensures Settled(cs, us, ci + 1, ui, snapshot, git)
  {
    forall k | ui <= k < |us|
      ensures !Matches(cs[ci], us[k], snapshot, git)
    {
      if k > ui {
        assert us[ui].oldEnd < us[k].oldStart;
      }
    }
  }

  lemma NoneLeft(cs: seq<Edit>, us: seq<Edit>, ui: nat, snapshot: string, git: string)
    requires Settled(cs, us, |cs|, ui, snapshot, git)
    ensures forall k :: ui <= k < |us| ==> !CommitMask(cs, us, snapshot, git)[k]
  {
  }

  // ----- choosing what to reject

  /** A run of buffer rows, both ends included. */
  datatype RowRange = RowRange(start: nat, end: nat)

  /** The last row an edit shows on: the row it ends before, or the last row of the buffer. */
  function LastRow(e: Edit, rows: nat): int {
    if e.newEnd < rows then e.newEnd else rows - 1
  }

  predicate Touches(r: RowRange, e: Edit, rows: nat) {
    !(r.end < e.newStart) && !(r.start > LastRow(e, rows))
  }

  /** The same for a reject, where no row past the last of the buffer counts. */
  lemma TouchesMeans(r: RowRange, e: Edit, rows: nat)
    requires r.start <= r.end && 0 <= e.newStart <= e.newEnd && e.newStart < rows
    ensures Touches(r, e, rows) <==>
            exists row :: RowIn(row, r.start, r.end) && RowIn(row, e.newStart, e.newEnd) && RowIn(row, 0, rows - 1)
  {
    var row := if r.start < e.newStart then e.newStart else r.start;
    if Touches(r, e, rows) {
      assert RowIn(row, r.start, r.end) && RowIn(row, e.newStart, e.newEnd) && RowIn(row, 0, rows - 1);
    }
  }

  /** The all-pairs check: some range touches the edit. */
  ghost predicate Touched(rs: seq<RowRange>, e: Edit, rows: nat) {
    exists t :: 0 <= t < |rs| && Touches(rs[t], e, rows)
  }

  ghost predicate SortedByStart(rs: seq<RowRange>) {
    forall p, q :: 0 <= p < q < |rs| ==> rs[p].start <= rs[q].start
  }

  function DropPassed(rs: seq<RowRange>, row: int): seq<RowRange> {
    if rs != [] && rs[0].end < row then DropPassed(rs[1..], row) else rs
  }

  /** One pass over edits and ranges: ranges that end before the edit are dropped for good, and
      the first one left decides. */
  function Select(es: seq<Edit>, rs: seq<RowRange>, rows: nat): (selected: seq<bool>)
    ensures |selected| == |es|
    decreases |es|
  {
    if es == [] then []
    else
      var rs' := DropPassed(rs, es[0].newStart);
      [rs' != [] && rs'[0].start <= LastRow(es[0], rows)] + Select(es[1..], rs', rows)
  }

  /** The loop that selects. */
  method SelectToReject(es: seq<Edit>, ranges: seq<RowRange>, rows: nat)
      returns (selected: seq<bool>)
    ensures selected == Select(es, ranges, rows)
  {
    selected := [];
    var next := 0;
    assert es[0..] == es && ranges[0..] == ranges;
    for k := 0 to |es|
      invariant next <= |ranges|
      invariant selected + Select(es[k..], ranges[next..], rows) == Select(es, ranges, rows)
    {
      assert es[k..][1..] == es[k + 1..];
      ghost var left := ranges[next..];
      while next < |ranges| && ranges[next].end < es[k].newStart
        invariant next <= |ranges|
        invariant DropPassed(ranges[next..], es[k].newStart) == DropPassed(left, es[k].newStart)
      {
        assert ranges[next..][1..] == ranges[next + 1..];
        next := next + 1;
      }
      var revert := next < |ranges| && !(ranges[next].start > LastRow(es[k], rows));
      selected := selected + [revert];
    }
  }

  /** Dropping for an earlier row and then for a later one is dropping for the later one. */
  lemma {:induction false} DropTwice(rs: seq<RowRange>, a: int, b: int)
    requires a <= b
    ensures DropPassed(DropPassed(rs, a), b) == DropPassed(rs, b)
  {
    if rs != [] && rs[0].end < a {
      DropTwice(rs[1..], a, b);
    }
  }

  /** What the pass decides for an edit does not depend on the edits before it: the first range,
      in the order they come, that ends at or after the edit's first row decides. */
  lemma {:induction false} SelectIs(es: seq<Edit>, rs: seq<RowRange>, rows: nat, k: nat)
    requires OrderedNew(es) && k < |es|
    ensures Select(es, rs, rows)[k] <==>
            DropPassed(rs, es[k].newStart) != []
            && DropPassed(rs, es[k].newStart)[0].start <= LastRow(es[k], rows)
    decreases |es|
  {
    hide DropPassed, LastRow;
    if k > 0 {
      assert es[1..][k - 1] == es[k];
      assert es[0].newEnd < es[k].newStart;
      SelectIs(es[1..], DropPassed(rs, es[0].newStart), rows, k - 1);
      DropTwice(rs, es[0].newStart, es[k].newStart);
    }
  }

  /** The range `rs[t]` is the first that ends at or after the row. */
  ghost predicate FirstToReach(rs: seq<RowRange>, row: int, t: int) {
    0 <= t < |rs| && rs[t].end >= row && forall p :: 0 <= p < t ==> rs[p].end < row
  }

  /** It is the first one left after dropping, and there is one if any range ends that late. */
  lemma {:induction false} FirstLeft(rs: seq<RowRange>, row: int) returns (t: nat)
    ensures DropPassed(rs, row) == [] ==> forall p :: 0 <= p < |rs| ==> rs[p].end < row
    ensures DropPassed(rs, row) != [] ==> FirstToReach(rs, row, t) && rs[t] == DropPassed(rs, row)[0]
  {
    t := 0;
    if rs != [] && rs[0].end < row {
      t := FirstLeft(rs[1..], row);
      t := t + 1;
      assert forall p :: 0 < p < |rs| ==> rs[p] == rs[1..][p - 1];
    }
  }

  /** The single pass selects only edits some range touches, and for ranges sorted by their
      start exactly those. */
  lemma SelectIsTouched(es: seq<Edit>, rs: seq<RowRange>, rows: nat, k: nat)
    requires OrderedNew(es) && k < |es|
    ensures Select(es, rs, rows)[k] ==> Touched(rs, es[k], rows)
    ensures SortedByStart(rs) && Touched(rs, es[k], rows) ==> Select(es, rs, rows)[k]
  {
    hide DropPassed, Select;
    SelectIs(es, rs, rows, k);
    var t := FirstLeft(rs, es[k].newStart);
    if Select(es, rs, rows)[k] {
      assert Touches(rs[t], es[k], rows);
    } else if SortedByStart(rs) {
      forall q | 0 <= q < |rs|
        ensures !Touches(rs[q], es[k], rows)
      {
        assert FirstToReach(rs, es[k].newStart, t) && t < q ==> rs[t].start <= rs[q].start;
      }
    }
  }

  // ----- which lists of ranges the pass is right for

  ghost predicate Proper(rs: seq<RowRange>) {
    forall t :: 0 <= t < |rs| ==> rs[t].start <= rs[t].end
  }

  ghost predicate Covered(rs: seq<RowRange>, row: int) {
    exists t :: 0 <= t < |rs| && rs[t].start <= row <= rs[t].end
  }

  /** Every row of the buffer that some range covers is covered by the first range, in the order
      they come, that ends at or after the row. */
  ghost predicate FirstCovers(rs: seq<RowRange>, rows: nat) {
    forall row :: 0 <= row < rows && Covered(rs, row) ==> FirstStartsBy(rs, row, row)
  }

  /** The first range that ends at or after `row` starts at or before `last`. */
  predicate FirstStartsBy(rs: seq<RowRange>, row: int, last: int) {
    var left := DropPassed(rs, row);
    left != [] && left[0].start <= last
  }

  ghost predicate InBuffer(es: seq<Edit>, rows: nat) {
    OrderedNew(es) && forall k :: 0 <= k < |es| ==> 0 <= es[k].newStart < rows
  }

  /** The pass selects exactly the edits some range touches. */
  ghost predicate Exact(es: seq<Edit>, rs: seq<RowRange>, rows: nat) {
    forall k :: 0 <= k < |es| ==> (Select(es, rs, rows)[k] <==> Touched(rs, es[k], rows))
  }

  /** The selection theorem: the single pass is right for every list of edits in the buffer if and
      only if the first range to reach a covered row covers it. */
  lemma PassIsExact(rs: seq<RowRange>, rows: nat)
    requires Proper(rs)
    ensures (forall es :: InBuffer(es, rows) ==> Exact(es, rs, rows)) <==> FirstCovers(rs, rows)
  {
    hide *;
    if FirstCovers(rs, rows) {
      forall es | InBuffer(es, rows)
        ensures Exact(es, rs, rows)
      {
        CoversIsExact(es, rs, rows);
      }
    }
    if forall es :: InBuffer(es, rows) ==> Exact(es, rs, rows) {
      ExactCovers(rs, rows);
    }
  }

  lemma CoversIsExact(es: seq<Edit>, rs: seq<RowRange>, rows: nat)
    requires Proper(rs) && FirstCovers(rs, rows) && InBuffer(es, rows)
    ensures Exact(es, rs, rows)
  {
    hide Select, DropPassed, FirstCovers, Proper;
    forall k | 0 <= k < |es|
      ensures Select(es, rs, rows)[k] <==> Touched(rs, es[k], rows)
    {
      SelectIsTouched(es, rs, rows, k);
      SelectIs(es, rs, rows, k);
      if Touched(rs, es[k], rows) {
        var q :| 0 <= q < |rs| && Touches(rs[q], es[k], rows);
        FirstIsInTime(rs, rows, q, es[k].newStart, LastRow(es[k], rows));
      }
    }
  }

  /** A range that touches the rows `a..last` is not missed: if it starts on a later row than `a`,
      the first range to reach that row starts by then, and so does the first to reach `a`. */
  lemma FirstIsInTime(rs: seq<RowRange>, rows: nat, q: nat, a: int, last: int)
    requires Proper(rs) && FirstCovers(rs, rows) && q < |rs|
    requires 0 <= a <= last < rows && rs[q].end >= a && rs[q].start <= last
    ensures FirstStartsBy(rs, a, last)
  {
    hide DropPassed;
    var row := if rs[q].start <= a then a else rs[q].start;
    assert Covered(rs, row) by {
      assert rs[q].start <= row <= rs[q].end;
    }
    assert FirstStartsBy(rs, row, row);
    var t := FirstLeft(rs, a);
    var p := FirstLeft(rs, row);
    assert FirstToReach(rs, a, t);
    if rs[t].end >= row {
      assert t == p;
    }
  }

  lemma ExactCovers(rs: seq<RowRange>, rows: nat)
    requires forall es :: InBuffer(es, rows) ==> Exact(es, rs, rows)
    ensures FirstCovers(rs, rows)
  {
    hide Select, DropPassed;
    forall row | 0 <= row < rows && Covered(rs, row)
      ensures FirstStartsBy(rs, row, row)
    {
      var es := [Edit(row, row + 1, row, row)];
      assert InBuffer(es, rows) && Exact(es, rs, rows);
      var t :| 0 <= t < |rs| && rs[t].start <= row <= rs[t].end;
      assert Touches(rs[t], es[0], rows);
      SelectIs(es, rs, rows, 0);
    }
  }

  /** Ranges in the order of their starts are such a list. */
  lemma SortedCovers(rs: seq<RowRange>, rows: nat)
    requires SortedByStart(rs)
    ensures FirstCovers(rs, rows)
  {
    hide DropPassed;
    forall row | 0 <= row < rows && Covered(rs, row)
      ensures FirstStartsBy(rs, row, row)
    {
      var q :| 0 <= q < |rs| && rs[q].start <= row <= rs[q].end;
      var t := FirstLeft(rs, row);
      assert t < q ==> rs[t].start <= rs[q].start;
    }
  }

  /** And so are some in another order: what matters is which range comes first at each row. */
  lemma UnsortedCanCover(rows: nat)
    ensures var rs := [RowRange(0, 10), RowRange(5, 6), RowRange(3, 4)];
            !SortedByStart(rs) && FirstCovers(rs, rows)
  {
    var rs := [RowRange(0, 10), RowRange(5, 6), RowRange(3, 4)];
    assert rs[1].start > rs[2].start;
  }

  /** With a later range first, an edit another one touches is missed. */
  lemma UnsortedRangesMiss()
    ensures var es, rs := [Edit(0, 1, 0, 1)], [RowRange(5, 6), RowRange(0, 0)];
            && Touched(rs, es[0], 9) && !Select(es, rs, 9)[0]
            && Covered(rs, 0) && !FirstStartsBy(rs, 0, 0)
  {
    var rs := [RowRange(5, 6), RowRange(0, 0)];
    assert Touches(rs[1], Edit(0, 1, 0, 1), 9);
    assert rs[1].start <= 0 <= rs[1].end;
  }

  // ----- rejecting

  /** The buffer edits of a reject: for each selected edit, the reviewed text in place of the
      bytes of its new rows. */
  function RejectChanges(es: seq<Edit>, selected: seq<bool>, base: string, snapshot: string)
      : seq<Change<char>>
    requires |selected| == |es| && Ranges(es)
  {
    if es == [] then []
    else
      var e, rest := es[0], RejectChanges(es[1..], selected[1..], base, snapshot);
      if selected[0]
      then [Change(RowStart(snapshot, e.newStart), RowStart(snapshot, e.newEnd),
                   SliceRows(base, e.oldStart, e.oldEnd))] + rest
      else rest
  }

  /** The same list, as the engine builds it. */
  method CollectRejects(es: seq<Edit>, selected: seq<bool>, base: string, snapshot: string)
      returns (changes: seq<Change<char>>)
    requires |selected| == |es| && Ranges(es)
    ensures changes == RejectChanges(es, selected, base, snapshot)
  {
    changes := [];
    assert es[0..] == es && selected[0..] == selected;
    for k := 0 to |es|
      invariant changes + RejectChanges(es[k..], selected[k..], base, snapshot)
                == RejectChanges(es, selected, base, snapshot)
    {
      assert es[k..][1..] == es[k + 1..] && selected[k..][1..] == selected[k + 1..];
      hide RowStart, SliceRows;
      if selected[k] {
        var oldText := SliceRows(base, es[k].oldStart, es[k].oldEnd);
        changes := changes + [Change(RowStart(snapshot, es[k].newStart),
                                     RowStart(snapshot, es[k].newEnd), oldText)];
      }
    }
  }

  /** The text of the rows an edit stands for, on either side: terminated unless they are the
      last rows. */
  lemma PickText(base: string, snapshot: string, e: Edit, made: bool)
    requires e.Within(Rows(base), Rows(snapshot))
    requires e.oldStart < |Rows(base)| && e.newStart < |Rows(snapshot)|
    requires e.oldEnd == |Rows(base)| <==> e.newEnd == |Rows(snapshot)|
    ensures var x := Pick(Rows(base), Rows(snapshot), e, made);
            var text := if made then SliceRows(snapshot, e.newStart, e.newEnd)
                        else SliceRows(base, e.oldStart, e.oldEnd);
            && (e.oldEnd < |Rows(base)| ==> text == Lines(x))
            && (e.oldEnd == |Rows(base)| ==> text == Join(x) && x != [])
  {
    hide Rows, SliceRows, Join, Lines;
    var b, s := Rows(base), Rows(snapshot);
    SliceOfRows(base, e.oldStart, e.oldEnd);
    SliceOfRows(snapshot, e.newStart, e.newEnd);
    assert e.oldEnd == |b| ==> b[e.oldStart..] == b[e.oldStart..e.oldEnd];
    assert e.newEnd == |s| ==> s[e.newStart..] == s[e.newStart..e.newEnd];
  }

  lemma JoinThree(g: seq<string>, x: seq<string>, z: seq<string>)
    ensures z != [] ==> Join(g + x + z) == Lines(g) + Lines(x) + Join(z)
    ensures z == [] && x != [] ==> Join(g + x + z) == Lines(g) + Join(x) + Join(z)
  {
    if z != [] {
      JoinOfConcat(g + x, z);
      LinesOfConcat(g, x);
    } else if x != [] {
      JoinOfConcat(g, x);
      assert g + x + z == g + x;
    }
  }

  lemma TailText(t: string, j: nat)
    requires j <= |Rows(t)|
    ensures t[RowStart(t, j)..] == Join(Rows(t)[j..])
  {
    if j < |Rows(t)| {
      SplitAtRow(t, j);
    } else {
      RowStartPastTheEnd(t, j);
    }
  }

  ghost predicate Ranges(es: seq<Edit>) {
    forall k :: 0 <= k < |es| ==>
      0 <= es[k].oldStart <= es[k].oldEnd && 0 <= es[k].newStart <= es[k].newEnd
  }

  /** The buffer after the reject, from row `j` on: the rows with the edits not selected made. */
  lemma {:induction false} RejectTail(
      es: seq<Edit>, selected: seq<bool>, base: string, snapshot: string, i: int, j: int)
    requires |selected| == |es| && Ranges(es)
    requires Aligned(Rows(base), Rows(snapshot), es, i, j)
    requires StartsInside(Rows(base), Rows(snapshot), es)
    ensures var cs, at := RejectChanges(es, selected, base, snapshot), RowStart(snapshot, j);
            && Fits(cs, |snapshot|, at)
            && Apply(snapshot, cs, at) ==
               Join(Mid(Rows(base), Rows(snapshot), es, Not(selected), i, j))
    decreases |es|
  {
    hide *;
    if es == [] {
      RejectNone(es, selected, base, snapshot, i, j);
    } else {
      var e, rest, flags := es[0], es[1..], selected[1..];
      var b, s := Rows(base), Rows(snapshot);
      RangesTail(es);
      HeadFacts(b, s, es, i, j);
      RejectTail(rest, flags, base, snapshot, e.oldEnd, e.newEnd);
      EndsTogether(b, s, es, i, j);
      MidIsLast(b, s, es, Not(flags), i, j);
      RejectStep(es, selected, base, snapshot, i, j, Mid(b, s, rest, Not(flags), e.oldEnd, e.newEnd));
    }
  }

  lemma RejectNone(
      es: seq<Edit>, selected: seq<bool>, base: string, snapshot: string, i: int, j: int)
    requires es == [] && selected == [] && Ranges(es)
    requires Aligned(Rows(base), Rows(snapshot), es, i, j)
    ensures var cs, at := RejectChanges(es, selected, base, snapshot), RowStart(snapshot, j);
            && Fits(cs, |snapshot|, at)
            && Apply(snapshot, cs, at) ==
               Join(Mid(Rows(base), Rows(snapshot), es, Not(selected), i, j))
  {
    TailText(snapshot, j);
  }

  /** After an edit nothing remains exactly when it reached the end. */
  lemma MidIsLast<T>(b: seq<T>, s: seq<T>, es: seq<Edit>, flags: seq<bool>, i: int, j: int)
    requires es != [] && |flags| == |es[1..]| && Aligned(b, s, es, i, j) && StartsInside(b, s, es)
    ensures Aligned(b, s, es[1..], es[0].oldEnd, es[0].newEnd)
    ensures es[0].oldEnd == |b| <==>
              Mid(b, s, es[1..], flags, es[0].oldEnd, es[0].newEnd) == []
  {
    var rest := es[1..];
    assert rest == [] || rest[0] == es[1];
    if es[0].oldEnd < |b| {
      MidNotEmpty(b, s, rest, flags, es[0].oldEnd, es[0].newEnd);
    }
  }

  lemma RejectStep(es: seq<Edit>, selected: seq<bool>, base: string, snapshot: string,
                   i: int, j: int, m: seq<string>)
    requires es != [] && |selected| == |es| && Ranges(es)
    requires Aligned(Rows(base), Rows(snapshot), es, i, j)
    requires StartsInside(Rows(base), Rows(snapshot), es)
    requires es[0].oldEnd == |Rows(base)| <==> es[0].newEnd == |Rows(snapshot)|
    requires es[0].oldEnd == |Rows(base)| <==> m == []
    requires m == Mid(Rows(base), Rows(snapshot), es[1..], Not(selected[1..]),
                      es[0].oldEnd, es[0].newEnd)
    requires var cs, at := RejectChanges(es[1..], selected[1..], base, snapshot),
                           RowStart(snapshot, es[0].newEnd);
             Fits(cs, |snapshot|, at) && Apply(snapshot, cs, at) == Join(m)
    ensures var cs, at := RejectChanges(es, selected, base, snapshot), RowStart(snapshot, j);
            && Fits(cs, |snapshot|, at)
            && Apply(snapshot, cs, at) ==
               Join(Mid(Rows(base), Rows(snapshot), es, Not(selected), i, j))
  {
    hide *;
    var e, b, s := es[0], Rows(base), Rows(snapshot);
    HeadFacts(b, s, es, i, j);
    var g, x := s[j..e.newStart], Pick(b, s, e, !selected[0]);
    MidHead(b, s, es, selected, i, j);
    JoinThree(g, x, m);
    PickText(base, snapshot, e, !selected[0]);
    SliceOfRows(snapshot, j, e.newStart);
    ChangesStep(es, selected, base, snapshot, j);
  }

  lemma HeadFacts(b: seq<string>, s: seq<string>, es: seq<Edit>, i: int, j: int)
    requires es != [] && Aligned(b, s, es, i, j) && StartsInside(b, s, es)
    ensures es[0].Within(b, s) && 0 <= i <= es[0].oldStart <= es[0].oldEnd <= |b|
    ensures 0 <= j <= es[0].newStart <= es[0].newEnd <= |s|
    ensures es[0].oldStart < |b| && es[0].newStart < |s|
    ensures Aligned(b, s, es[1..], es[0].oldEnd, es[0].newEnd) && StartsInside(b, s, es[1..])
  {
  }

  lemma MidHead(b: seq<string>, s: seq<string>, es: seq<Edit>, selected: seq<bool>, i: int, j: int)
    requires es != [] && |selected| == |es| && Aligned(b, s, es, i, j)
    ensures 0 <= j <= es[0].newStart <= |s| && es[0].Within(b, s)
    ensures Aligned(b, s, es[1..], es[0].oldEnd, es[0].newEnd)
    ensures Mid(b, s, es, Not(selected), i, j) ==
            s[j..es[0].newStart] + Pick(b, s, es[0], !selected[0])
            + Mid(b, s, es[1..], Not(selected[1..]), es[0].oldEnd, es[0].newEnd)
  {
    assert Not(selected)[1..] == Not(selected[1..]);
  }

  /** One edit of the walk on the bytes: the gap, the text picked, and the rest. */
  lemma ChangesStep(es: seq<Edit>, selected: seq<bool>, base: string, snapshot: string, j: nat)
    requires es != [] && |selected| == |es| && Ranges(es) && j <= es[0].newStart
    requires Fits(RejectChanges(es[1..], selected[1..], base, snapshot), |snapshot|,
                  RowStart(snapshot, es[0].newEnd))
    ensures var e, cs := es[0], RejectChanges(es, selected, base, snapshot);
            && Fits(cs, |snapshot|, RowStart(snapshot, j))
            && Apply(snapshot, cs, RowStart(snapshot, j)) ==
               SliceRows(snapshot, j, e.newStart)
               + (if selected[0] then SliceRows(base, e.oldStart, e.oldEnd)
                  else SliceRows(snapshot, e.newStart, e.newEnd))
               + Apply(snapshot, RejectChanges(es[1..], selected[1..], base, snapshot),
                       RowStart(snapshot, e.newEnd))
  {
    hide *;
    RangesTail(es);
    var e, cs := es[0], RejectChanges(es[1..], selected[1..], base, snapshot);
    var x, y, z := RowStart(snapshot, j), RowStart(snapshot, e.newStart), RowStart(snapshot, e.newEnd);
    RejectHead(es, selected, base, snapshot);
    SliceLength(snapshot, j, e.newStart);
    SliceLength(snapshot, e.newStart, e.newEnd);
    if selected[0] {
      var c := Change(y, z, SliceRows(base, e.oldStart, e.oldEnd));
      ApplyCons(snapshot, c, cs, x);
    } else {
      FitsLower(cs, |snapshot|, z, x);
      FitsFirst(cs, |snapshot|, z);
      ApplyFrom(snapshot, cs, x, z);
      assert snapshot[x..z] == snapshot[x..y] + snapshot[y..z];
    }
  }

  lemma RangesTail(es: seq<Edit>)
    requires es != [] && Ranges(es)
    ensures Ranges(es[1..])
    ensures 0 <= es[0].oldStart <= es[0].oldEnd && 0 <= es[0].newStart <= es[0].newEnd
  {
  }

  lemma RejectHead(es: seq<Edit>, selected: seq<bool>, base: string, snapshot: string)
    requires es != [] && |selected| == |es| && Ranges(es)
    ensures 0 <= es[0].oldStart <= es[0].oldEnd && 0 <= es[0].newStart <= es[0].newEnd
    ensures Ranges(es[1..])
    ensures var e, rest := es[0], RejectChanges(es[1..], selected[1..], base, snapshot);
            RejectChanges(es, selected, base, snapshot) ==
            if selected[0]
            then [Change(RowStart(snapshot, e.newStart), RowStart(snapshot, e.newEnd),
                         SliceRows(base, e.oldStart, e.oldEnd))] + rest
            else rest
  {
  }

  lemma ApplyCons<T>(t: seq<T>, c: Change<T>, cs: seq<Change<T>>, at: int)
    requires 0 <= at <= c.start <= c.end <= |t|
    ensures Apply(t, [c] + cs, at) == t[at..c.start] + c.rows + Apply(t, cs, c.end)
    ensures Fits(cs, |t|, c.end) ==> Fits([c] + cs, |t|, at)
  {
    assert ([c] + cs)[1..] == cs;
  }

  lemma {:induction false} MidHasNoNewlines(
      b: seq<string>, s: seq<string>, es: seq<Edit>, chosen: seq<bool>, i: int, j: int)
    requires NoNewlines(b) && NoNewlines(s) && |chosen| == |es| && Aligned(b, s, es, i, j)
    ensures NoNewlines(Mid(b, s, es, chosen, i, j))
    decreases |es|
  {
    hide NoNewlines;
    if es == [] {
      NoNewlinesIn(b, i, |b|);
    } else {
      var e := es[0];
      MidHasNoNewlines(b, s, es[1..], chosen[1..], e.oldEnd, e.newEnd);
      NoNewlinesIn(b, i, e.oldStart);
      NoNewlinesIn(b, e.oldStart, e.oldEnd);
      NoNewlinesIn(s, e.newStart, e.newEnd);
      hide Mid;
      NoNewlinesOf(b[i..e.oldStart], Pick(b, s, e, chosen[0]),
                   Mid(b, s, es[1..], chosen[1..], e.oldEnd, e.newEnd));
      MidUnfold(b, s, es, chosen, i, j);
    }
  }

  lemma MidUnfold(b: seq<string>, s: seq<string>, es: seq<Edit>, chosen: seq<bool>, i: int, j: int)
    requires |chosen| == |es| && Aligned(b, s, es, i, j) && es != []
    ensures Mid(b, s, es, chosen, i, j) ==
            b[i..es[0].oldStart] + Pick(b, s, es[0], chosen[0])
            + Mid(b, s, es[1..], chosen[1..], es[0].oldEnd, es[0].newEnd)
  {
  }

  lemma NoNewlinesIn(rs: seq<string>, a: nat, b: nat)
    requires NoNewlines(rs) && a <= b <= |rs|
    ensures NoNewlines(rs[a..b]) && (b == |rs| ==> rs[a..b] == rs[a..])
  {
  }

  lemma NoNewlinesOf(x: seq<string>, y: seq<string>, z: seq<string>)
    requires NoNewlines(x) && NoNewlines(y) && NoNewlines(z)
    ensures NoNewlines(x + y + z)
  {
  }

  lemma RepRanges<T>(b: seq<T>, es: seq<Edit>, s: seq<T>)
    requires Rep(b, es, s)
    ensures Ranges(es)
  {
    forall k | 0 <= k < |es|
      ensures 0 <= es[k].oldStart <= es[k].oldEnd && 0 <= es[k].newStart <= es[k].newEnd
    {
      RepEdit(b, s, es, k);
    }
  }

  /** The reject theorem: the buffer after rejecting the selected edits is the reviewed text
      with exactly the other edits made, and those edits are the whole difference. */
  lemma RejectTheorem(es: seq<Edit>, selected: seq<bool>, base: string, snapshot: string)
    requires Rep(Rows(base), es, Rows(snapshot)) && |selected| == |es|
    ensures Ranges(es) && Aligned(Rows(base), Rows(snapshot), es, 0, 0)
    ensures Fits(RejectChanges(es, selected, base, snapshot), |snapshot|, 0)
    ensures var after := Rows(Apply(snapshot, RejectChanges(es, selected, base, snapshot), 0));
            && after == Mid(Rows(base), Rows(snapshot), es, Not(selected), 0, 0)
            && Rep(Rows(base), Chosen(es, Not(selected), 0), after)
            && ((forall k :: 0 <= k < |es| ==> selected[k]) ==> after == Rows(base))
  {
    hide *;
    var b, s := Rows(base), Rows(snapshot);
    RepRanges(b, es, s);
    RepParts(b, es, s);
    RowStartZero(snapshot);
    RejectTail(es, selected, base, snapshot, 0, 0);
    var m := Mid(b, s, es, Not(selected), 0, 0);
    RowsHaveNoNewlines(base);
    RowsHaveNoNewlines(snapshot);
    MidHasNoNewlines(b, s, es, Not(selected), 0, 0);
    MidNotEmpty(b, s, es, Not(selected), 0, 0);
    RowsOfJoin(m);
    ChosenRep(b, s, es, Not(selected));
    if forall k :: 0 <= k < |es| ==> selected[k] {
      ChooseNone(b, s, es, Not(selected), 0, 0);
      assert b[0..] == b;
    }
  }

  lemma RowStartZero(t: string)
    ensures RowStart(t, 0) == 0
  {
  }

  // ----- undoing a reject

  /** What a reject remembers: for each buffer edit, the text it replaced, to be put back where
      the edit's ends have moved to. */
  function UndoChanges<T>(t: seq<T>, cs: seq<Change<T>>, delta: int): seq<Change<T>> {
    if cs == [] then []
    else [Change(cs[0].start + delta, cs[0].start + delta + |cs[0].rows|,
                 Slice(t, cs[0].start, cs[0].end))]
         + UndoChanges(t, cs[1..], delta + cs[0].Delta())
  }

  /** Undo restores the exact text, whatever was rejected. */
  lemma {:induction false} UndoRestoresFrom<T>(t: seq<T>, cs: seq<Change<T>>, j: int, p: seq<T>)
    requires 0 <= j && Fits(cs, |t|, j)
    ensures Apply(p + Apply(t, cs, j), UndoChanges(t, cs, |p| - j), |p|) == t[j..]
    decreases |cs|
  {
    hide *;
    if cs == [] {
      UndoNone(t, cs, j, p);
    } else {
      var c, cs' := cs[0], cs[1..];
      assert cs == [c] + cs';
      FitsHead(cs, |t|, j);
      var g, x := t[j..c.start], Apply(t, cs', c.end);
      var p', delta := p + g + c.rows, |p| - j;
      ApplyCons(t, c, cs', j);
      UndoHead(t, cs, delta);
      assert |p'| - c.end == delta + c.Delta();
      UndoRestoresFrom(t, cs', c.end, p');
      Regroup(p, g, c.rows, x);
      UndoStep(t, c, p, g, x, UndoChanges(t, cs', delta + c.Delta()), j);
    }
  }

  lemma UndoNone<T>(t: seq<T>, cs: seq<Change<T>>, j: int, p: seq<T>)
    requires 0 <= j && Fits(cs, |t|, j) && cs == []
    ensures j <= |t| && Apply(p + Apply(t, cs, j), UndoChanges(t, cs, |p| - j), |p|) == t[j..]
  {
    assert Apply(t, cs, j) == t[j..];
    assert UndoChanges(t, cs, |p| - j) == [];
    assert (p + t[j..])[|p|..] == t[j..];
  }

  lemma FitsHead<T>(cs: seq<Change<T>>, size: int, j: int)
    requires cs != [] && Fits(cs, size, j)
    ensures j <= cs[0].start <= cs[0].end <= size && Fits(cs[1..], size, cs[0].end)
    ensures cs[0].Delta() == |cs[0].rows| - (cs[0].end - cs[0].start)
  {
  }

  lemma UndoHead<T>(t: seq<T>, cs: seq<Change<T>>, delta: int)
    requires cs != []
    ensures UndoChanges(t, cs, delta) ==
            [Change(cs[0].start + delta, cs[0].start + delta + |cs[0].rows|,
                    Slice(t, cs[0].start, cs[0].end))]
            + UndoChanges(t, cs[1..], delta + cs[0].Delta())
  {
  }

  lemma UndoStep<T>(t: seq<T>, c: Change<T>, p: seq<T>, g: seq<T>, x: seq<T>,
                    rest: seq<Change<T>>, j: int)
    requires 0 <= j <= c.start <= c.end <= |t| && g == t[j..c.start]
    requires var w, p' := p + g + c.rows + x, p + g + c.rows;
             Apply(w, rest, |p'|) == t[c.end..]
    ensures var w, at := p + g + c.rows + x, c.start + |p| - j;
            Apply(w, [Change(at, at + |c.rows|, Slice(t, c.start, c.end))] + rest, |p|) == t[j..]
  {
    hide *;
    var w, at := p + g + c.rows + x, c.start + |p| - j;
    var u := Change(at, at + |c.rows|, Slice(t, c.start, c.end));
    assert at == |p + g|;
    ApplyCons(w, u, rest, |p|);
    SliceWithin(t, c.start, c.end);
    assert w[|p|..at] == g;
    Rejoin([], t, j, c.start, c.end);
    assert [] + t[j..] == t[j..] && [] + t[j..c.start] == g;
  }

  /** A reject followed at once by its undo restores the buffer. */
  lemma UndoRestores(es: seq<Edit>, selected: seq<bool>, base: string, snapshot: string)
    requires Rep(Rows(base), es, Rows(snapshot)) && |selected| == |es|
    ensures Ranges(es)
    ensures var cs := RejectChanges(es, selected, base, snapshot);
            Apply(Apply(snapshot, cs, 0), UndoChanges(snapshot, cs, 0), 0) == snapshot
  {
    hide *;
    RejectTheorem(es, selected, base, snapshot);
    var cs := RejectChanges(es, selected, base, snapshot);
    UndoRestoresFrom(snapshot, cs, 0, "");
    assert "" + Apply(snapshot, cs, 0) == Apply(snapshot, cs, 0);
    assert snapshot[0..] == snapshot;
  }
}

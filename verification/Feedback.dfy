/** What the log makes of its own reject.

    A reject changes the buffer, and the change comes back to the log as user edits, widened to
    rows and merged.  `RejectFeedback` says that user edits spanning the new rows of unreviewed
    edits leave the reviewed text alone.  Here the way back is followed, for every patch and every
    selection: an edit comes back as one the log applies to the reviewed text exactly when blank
    rows let the widening rule move it off the rows it was made on (`FeedbackIsApplied`), and hunks
    trimmed at both ends never do (`TrimmedLeavesBase`). */
module Feedback {
  import opened Texts
  import opened Patches
  import opened RowDiff
  import opened Rebase
  import opened Review

  // ----- the points of row starts

  lemma PointOfRowStart(t: string, row: nat)
    requires row < |Rows(t)|
    ensures OffsetToPoint(t, RowStart(t, row)) == Point(row, 0)
  {
    hide Rows, Lines, RowStart;
    SplitAtRow(t, row);
    RowsHaveNoNewlines(t);
    RowsOfLines(Rows(t)[..row]);
  }

  lemma PointOfEnd(t: string)
    ensures OffsetToPoint(t, |t|) == Point(|Rows(t)| - 1, |Rows(t)[|Rows(t)| - 1]|) == MaxPoint(t)
  {
    assert t[..|t|] == t;
  }

  /** A newline stands at a row start exactly when the row is empty and not the last. */
  lemma NewlineAtRowStart(t: string, row: nat)
    requires row < |Rows(t)|
    ensures CharIsNewline(t, RowStart(t, row)) <==> Rows(t)[row] == "" && row + 1 < |Rows(t)|
  {
    hide Rows, RowStart, Lines, Join;
    SplitAtRow(t, row);
    var rs, at := Rows(t)[row..], RowStart(t, row);
    RowsHaveNoNewlines(t);
    if |rs| > 1 {
      JoinUnfold(rs);
    } else {
      assert rs == [rs[0]];
      JoinOne(rs[0]);
    }
    assert t[at..] == Join(rs);
    assert at < |t| ==> t[at] == t[at..][0];
    if rs[0] == "" {
      assert |rs| > 1 ==> Join(rs)[0] == '\n';
    } else {
      assert Join(rs)[0] == rs[0][0];
      assert rs[0] == Rows(t)[row] && rs[0][0] in Rows(t)[row];
    }
  }

  // ----- widening an edit between row starts

  /** The edit from rows `a..b` of one text to rows `c..d` of another. */
  ghost function RowCut(o: string, n: string, a: nat, b: nat, c: nat, d: nat): (e: Edit)
    requires a <= b && c <= d
    ensures e.Within(o, n)
  {
    RowStartIsMonotone(o, a, b);
    RowStartIsMonotone(n, c, d);
    Edit(RowStart(o, a), RowStart(o, b), RowStart(n, c), RowStart(n, d))
  }

  /** The last row an edit that ends before row `b` of `rows` rows can point to. */
  function LastPoint(b: int, rows: int): int {
    if b < rows then b else rows - 1
  }

  /** A row that is blank and not the last. */
  predicate Blank(rs: seq<string>, row: int) {
    0 <= row && row + 1 < |rs| && rs[row] == ""
  }

  /** Both texts end in a blank row. */
  predicate EndsBlank(b: seq<string>, s: seq<string>) {
    b != [] && s != [] && b[|b| - 1] == "" && s[|s| - 1] == ""
  }

  /** What the widening rule makes of an edit between row starts, in each of its cases. */
  lemma ComesBackAs(o: string, n: string, a: nat, b: nat, c: nat, d: nat)
    requires a <= b <= |Rows(o)| && a < |Rows(o)| && c <= d <= |Rows(n)| && c < |Rows(n)|
    requires b == |Rows(o)| <==> d == |Rows(n)|
    ensures var x, y := LastPoint(b, |Rows(o)|), LastPoint(d, |Rows(n)|);
            RowEditOf(RowCut(o, n, a, b, c, d), o, n) ==
            if Blank(Rows(o), a) && Blank(Rows(n), c) then Edit(a + 1, x + 1, c + 1, y + 1)
            else if b < |Rows(o)| || EndsBlank(Rows(n), Rows(o)) then Edit(a, x, c, y)
            else Edit(a, x + 1, c, y + 1)
  {
    hide Rows, RowStart, OffsetToPoint, PointToOffset;
    PointOfRowStart(o, a);
    PointOfRowStart(n, c);
    PointOfEnd(o);
    PointOfEnd(n);
    PointRoundTrip(n, RowStart(n, c));
    NewlineAtRowStart(n, c);
    if b < |Rows(o)| {
      PointOfRowStart(o, b);
      PointOfRowStart(n, d);
    } else {
      RowStartPastTheEnd(o, b);
      RowStartPastTheEnd(n, d);
    }
  }

  // ----- the edits of a reject

  /** The edits the buffer reports for changes made to it; one that changes nothing is dropped. */
  function ChangeEdits(cs: seq<Change<char>>, delta: int): seq<Edit> {
    if cs == [] then []
    else
      var c, rest := cs[0], ChangeEdits(cs[1..], delta + cs[0].Delta());
      if c.start == c.end && c.rows == "" then rest
      else [Edit(c.start, c.end, c.start + delta, c.start + delta + |c.rows|)] + rest
  }

  /** Rejecting the edit changes the text. */
  predicate ChangesText(u: Edit, base: string, snapshot: string)
    requires 0 <= u.oldStart <= u.oldEnd && 0 <= u.newStart <= u.newEnd
  {
    RowStart(snapshot, u.newStart) != RowStart(snapshot, u.newEnd)
    || SliceRows(base, u.oldStart, u.oldEnd) != ""
  }

  /** The selected edits whose reject changes the text. */
  function Rejects(es: seq<Edit>, selected: seq<bool>, base: string, snapshot: string): seq<Edit>
    requires |selected| == |es| && Ranges(es)
  {
    if es == [] then []
    else
      (if selected[0] && ChangesText(es[0], base, snapshot) then [es[0]] else [])
      + Rejects(es[1..], selected[1..], base, snapshot)
  }

  /** The rows of `u` in the base stand at `c` in what the reject leaves, and where they end, what
      is next to them, and whether they are the last, is as it was. */
  ghost predicate Around(u: Edit, b: seq<string>, after: seq<string>, c: nat) {
    && 0 <= u.oldStart <= u.oldEnd <= |b| && u.oldStart < |b| && c < |after|
    && var d := c + u.oldEnd - u.oldStart;
       && d <= |after| && after[c..d] == b[u.oldStart..u.oldEnd] && (d == |after| <==> u.oldEnd == |b|)
       && after[c] == b[u.oldStart] && (c + 1 < |after| <==> u.oldStart + 1 < |b|)
  }

  /** What follows an edit starts with the row the edit ended before, and goes on if that did. */
  lemma MidStartsWith(b: seq<string>, s: seq<string>, es: seq<Edit>, chosen: seq<bool>, i: int, j: int)
    requires |chosen| == |es| && Aligned(b, s, es, i, j) && StartsInside(b, s, es)
    requires i < |b| && (es == [] || i < es[0].oldStart)
    ensures var m := Mid(b, s, es, chosen, i, j);
            |m| > 0 && m[0] == b[i] && (|m| > 1 <==> i + 1 < |b|)
  {
    hide StartsInside;
    if es != [] {
      MidShift(b, s, es, chosen, i, j);
      StartsInsideHead(b, s, es);
      MidNotEmpty(b, s, es, chosen, i + 1, j + 1);
    }
  }

  lemma StartsInsideHead(b: seq<string>, s: seq<string>, es: seq<Edit>)
    requires StartsInside(b, s, es) && es != []
    ensures es[0].oldStart < |b|
  {
  }

  lemma MidShift(b: seq<string>, s: seq<string>, es: seq<Edit>, chosen: seq<bool>, i: int, j: int)
    requires |chosen| == |es| && Aligned(b, s, es, i, j) && es != [] && i < es[0].oldStart
    ensures 0 <= i < |b| && Aligned(b, s, es, i + 1, j + 1)
    ensures Mid(b, s, es, chosen, i, j) == [b[i]] + Mid(b, s, es, chosen, i + 1, j + 1)
  {
    hide Aligned, Mid;
    AlignedIn(b, s, es, i, j);
    AlignedForward(b, s, es, i, j, 1);
    MidUnfold(b, s, es, chosen, i, j);
    MidUnfold(b, s, es, chosen, i + 1, j + 1);
    assert b[i..es[0].oldStart] == [b[i]] + b[i + 1..es[0].oldStart];
  }

  /** The edit `u` stands at rows `c..d` of `r`: with its old rows there when it is rejected, and
      its new rows when not, after a gap that reads as in `s`. */
  ghost predicate HeadAt(u: Edit, rejected: bool, b: seq<string>, s: seq<string>, r: seq<string>,
                         i: int, j: int, x: int, c: int, d: int)
  {
    && 0 <= u.oldStart <= u.oldEnd <= |b| && u.oldStart < |b| && i <= u.oldStart
    && 0 <= j <= u.newStart <= u.newEnd <= |s| && u.newStart < |s|
    && 0 <= x <= c <= d <= |r| && c < |r| && c - x == u.oldStart - i
    && r[x..c] == s[j..u.newStart]
    && (d == |r| <==> u.newEnd == |s|) && (d == |r| <==> u.oldEnd == |b|)
    && if rejected then d == c + u.oldEnd - u.oldStart && Around(u, b, r, c)
       else r[c..d] == s[u.newStart..u.newEnd]
  }

  /** Where the head of the patch stands in what the reject leaves. */
  lemma HeadAfter(es: seq<Edit>, selected: seq<bool>, b: seq<string>, s: seq<string>, r: seq<string>,
                  i: int, j: int, x: nat) returns (c: nat, d: nat)
    requires es != [] && |selected| == |es| && OrderedOld(es)
    requires Aligned(b, s, es, i, j) && StartsInside(b, s, es)
    requires x <= |r| && r[x..] == Mid(b, s, es, Not(selected), i, j)
    ensures HeadAt(es[0], selected[0], b, s, r, i, j, x, c, d)
    ensures d <= |r| && Aligned(b, s, es[1..], es[0].oldEnd, es[0].newEnd) && StartsInside(b, s, es[1..])
    ensures r[d..] == Mid(b, s, es[1..], Not(selected[1..]), es[0].oldEnd, es[0].newEnd)
    ensures es[1..] != [] ==> es[0].oldEnd < es[1..][0].oldStart
  {
    hide *;
    var u, rest, flags := es[0], es[1..], Not(selected[1..]);
    HeadFacts(b, s, es, i, j);
    GapLength(b, s, es, i, j);
    EndsTogether(b, s, es, i, j);
    MidHead(b, s, es, selected, i, j);
    MidIsLast(b, s, es, flags, i, j);
    var p, m := Pick(b, s, u, !selected[0]), Mid(b, s, rest, flags, u.oldEnd, u.newEnd);
    c := x + u.newStart - j;
    d := c + |p|;
    PiecesOf(r, x, s[j..u.newStart], p, m);
    NextStarts(es);
    if selected[0] {
      PickPassed(b, s, u);
      if u.oldEnd < |b| {
        MidStartsWith(b, s, rest, flags, u.oldEnd, u.newEnd);
      }
      AroundIs(u, b, r, c, m);
    } else {
      PickChosen(b, s, u);
    }
    NotPastEnd(u, b, s, r, c, d, p, m);
    HeadAtIs(u, selected[0], b, s, r, i, j, x, c, d);
  }

  lemma NextStarts(es: seq<Edit>)
    requires es != [] && OrderedOld(es)
    ensures es[1..] != [] ==> es[0].oldEnd < es[1..][0].oldStart
  {
    assert es[1..] != [] ==> es[1..][0] == es[1];
  }

  lemma NotPastEnd(u: Edit, b: seq<string>, s: seq<string>, r: seq<string>, c: nat, d: nat,
                   p: seq<string>, m: seq<string>)
    requires d == c + |p| && |r| == d + |m| && u.oldStart < |b| && u.newStart < |s|
    requires u.oldEnd == |b| <==> u.newEnd == |s|
    requires u.oldEnd == |b| <==> m == []
    requires |p| == u.oldEnd - u.oldStart || |p| == u.newEnd - u.newStart
    ensures c < |r| && (d == |r| <==> u.oldEnd == |b|)
  {
  }

  lemma HeadAtIs(u: Edit, rejected: bool, b: seq<string>, s: seq<string>, r: seq<string>,
                 i: int, j: int, x: int, c: int, d: int)
    requires 0 <= u.oldStart <= u.oldEnd <= |b| && u.oldStart < |b| && i <= u.oldStart
    requires 0 <= j <= u.newStart <= u.newEnd <= |s| && u.newStart < |s|
    requires 0 <= x <= c <= d <= |r| && c < |r| && c - x == u.oldStart - i
    requires r[x..c] == s[j..u.newStart]
    requires (d == |r| <==> u.newEnd == |s|) && (d == |r| <==> u.oldEnd == |b|)
    requires rejected ==> d == c + u.oldEnd - u.oldStart && Around(u, b, r, c)
    requires !rejected ==> r[c..d] == s[u.newStart..u.newEnd]
    ensures HeadAt(u, rejected, b, s, r, i, j, x, c, d)
  {
    hide Around;
  }

  lemma PiecesOf(r: seq<string>, x: nat, g: seq<string>, p: seq<string>, m: seq<string>)
    requires x <= |r| && r[x..] == g + p + m
    ensures |r| == x + |g| + |p| + |m|
    ensures r[x..x + |g|] == g && r[x + |g|..x + |g| + |p|] == p && r[x + |g| + |p|..] == m
  {
    assert r[x..x + |g|] == r[x..][..|g|];
    assert r[x + |g|..x + |g| + |p|] == r[x..][|g|..|g| + |p|];
    assert r[x + |g| + |p|..] == r[x..][|g| + |p|..];
  }

  lemma AroundIs(u: Edit, b: seq<string>, r: seq<string>, c: nat, m: seq<string>)
    requires 0 <= u.oldStart <= u.oldEnd <= |b| && u.oldStart < |b|
    requires var d := c + u.oldEnd - u.oldStart;
             d <= |r| && r[c..d] == b[u.oldStart..u.oldEnd] && r[d..] == m && (m == [] <==> u.oldEnd == |b|)
    requires u.oldEnd < |b| ==> m[0] == b[u.oldEnd] && (|m| > 1 <==> u.oldEnd + 1 < |b|)
    ensures Around(u, b, r, c)
  {
    var d := c + u.oldEnd - u.oldStart;
    if u.oldStart < u.oldEnd {
      assert r[c] == r[c..d][0] && b[u.oldStart] == b[u.oldStart..u.oldEnd][0];
    } else {
      assert r[c] == r[d..][0];
    }
  }

  /** Where each edit of a reject stands in what the reject leaves. */
  ghost predicate Cuts(diff: seq<Edit>, rejects: seq<Edit>, at: seq<nat>,
                       base: string, snapshot: string, after: string)
  {
    |diff| == |rejects| == |at| &&
    forall p :: 0 <= p < |diff| ==> CutAt(diff[p], rejects[p], at[p], base, snapshot, after)
  }

  ghost predicate CutAt(e: Edit, u: Edit, c: nat, base: string, snapshot: string, after: string) {
    && Around(u, Rows(base), Rows(after), c) && 0 <= u.newStart <= u.newEnd <= |Rows(snapshot)|
    && u.newStart < |Rows(snapshot)| && (u.newEnd == |Rows(snapshot)| <==> u.oldEnd == |Rows(base)|)
    && e == RowCut(snapshot, after, u.newStart, u.newEnd, c, c + u.oldEnd - u.oldStart)
  }

  lemma CutsCons(e: Edit, u: Edit, c: nat, diff: seq<Edit>, rejects: seq<Edit>, at: seq<nat>,
                 base: string, snapshot: string, after: string)
    requires CutAt(e, u, c, base, snapshot, after) && Cuts(diff, rejects, at, base, snapshot, after)
    ensures Cuts([e] + diff, [u] + rejects, [c] + at, base, snapshot, after)
  {
    hide CutAt;
  }

  lemma CutsNone(base: string, snapshot: string, after: string)
    ensures Cuts([], [], [], base, snapshot, after)
  {
  }

  lemma RowStartGrows(t: string, a: nat, b: nat)
    requires a < b < |Rows(t)|
    ensures RowStart(t, a) < RowStart(t, b)
  {
    hide Rows, RowStart, Lines;
    SliceOfRows(t, a, b);
    RowStartIsMonotone(t, a, b);
    LinesUnfold(Rows(t)[a..b]);
  }

  lemma ChangeEditsHead(c: Change<char>, cs: seq<Change<char>>, delta: int)
    ensures ChangeEdits([c] + cs, delta) ==
            (if c.start == c.end && c.rows == "" then []
             else [Edit(c.start, c.end, c.start + delta, c.start + delta + |c.rows|)])
            + ChangeEdits(cs, delta + c.Delta())
    ensures c.Delta() == |c.rows| - (c.end - c.start)
  {
    assert ([c] + cs)[1..] == cs;
  }

  lemma RejectsHead(es: seq<Edit>, selected: seq<bool>, base: string, snapshot: string)
    requires es != [] && |selected| == |es| && Ranges(es)
    ensures Ranges(es[1..])
    ensures Rejects(es, selected, base, snapshot) ==
            (if selected[0] && ChangesText(es[0], base, snapshot) then [es[0]] else [])
            + Rejects(es[1..], selected[1..], base, snapshot)
  {
    hide RowStart, SliceRows, ChangesText;
  }

  /** The rejected head on the bytes: the edit the buffer reports for it. */
  lemma HeadCut(u: Edit, base: string, snapshot: string, after: string, x: nat, j: nat, c: nat, d: nat,
                delta: int)
    requires 0 <= u.newStart <= u.newEnd <= |Rows(snapshot)| && u.newStart < |Rows(snapshot)|
    requires j <= u.newStart && x <= c <= d <= |Rows(after)| && c < |Rows(after)|
    requires Rows(after)[x..c] == Rows(snapshot)[j..u.newStart]
    requires (d == |Rows(after)| <==> u.newEnd == |Rows(snapshot)|)
    requires Around(u, Rows(base), Rows(after), c) && d == c + u.oldEnd - u.oldStart
    requires RowStart(snapshot, j) + delta == RowStart(after, x)
    ensures RowStart(snapshot, u.newStart) + delta == RowStart(after, c)
    ensures |SliceRows(base, u.oldStart, u.oldEnd)| == RowStart(after, d) - RowStart(after, c)
    ensures CutAt(RowCut(snapshot, after, u.newStart, u.newEnd, c, d), u, c, base, snapshot, after)
    ensures SliceRows(snapshot, j, u.newStart) == SliceRows(after, x, c)
  {
    hide *;
    AroundMeans(u, Rows(base), Rows(after), c);
    SameRowsText(snapshot, after, j, u.newStart, x, c);
    SameRowsText(base, after, u.oldStart, u.oldEnd, c, d);
    SliceLength(after, c, d);
    CutAtIs(u, c, d, base, snapshot, after);
  }

  lemma AroundMeans(u: Edit, b: seq<string>, r: seq<string>, c: nat)
    requires Around(u, b, r, c)
    ensures 0 <= u.oldStart <= u.oldEnd <= |b| && u.oldStart < |b| && c < |r|
    ensures var d := c + u.oldEnd - u.oldStart;
            d <= |r| && r[c..d] == b[u.oldStart..u.oldEnd] && (d == |r| <==> u.oldEnd == |b|)
  {
  }

  lemma CutAtIs(u: Edit, c: nat, d: nat, base: string, snapshot: string, after: string)
    requires Around(u, Rows(base), Rows(after), c) && 0 <= u.newStart <= u.newEnd <= |Rows(snapshot)|
    requires u.newStart < |Rows(snapshot)| && u.oldStart <= u.oldEnd && d == c + u.oldEnd - u.oldStart
    requires u.newEnd == |Rows(snapshot)| <==> u.oldEnd == |Rows(base)|
    ensures CutAt(RowCut(snapshot, after, u.newStart, u.newEnd, c, d), u, c, base, snapshot, after)
  {
    hide Rows, Around, RowCut;
  }

  /** The edits before the next one, in step with the rows. */
  ghost predicate InStep(es: seq<Edit>, selected: seq<bool>, base: string, snapshot: string,
                         after: string, i: int, j: int, x: nat)
  {
    && |selected| == |es| && OrderedOld(es) && Ranges(es) && 0 <= j
    && Aligned(Rows(base), Rows(snapshot), es, i, j) && StartsInside(Rows(base), Rows(snapshot), es)
    && x <= |Rows(after)|
    && Rows(after)[x..] == Mid(Rows(base), Rows(snapshot), es, Not(selected), i, j)
  }

  lemma InStepHead(es: seq<Edit>, selected: seq<bool>, base: string, snapshot: string,
                   after: string, i: int, j: int, x: nat) returns (c: nat, d: nat)
    requires InStep(es, selected, base, snapshot, after, i, j, x) && es != []
    ensures |selected| == |es|
    ensures HeadAt(es[0], selected[0], Rows(base), Rows(snapshot), Rows(after), i, j, x, c, d)
    ensures InStep(es[1..], selected[1..], base, snapshot, after, es[0].oldEnd, es[0].newEnd, d)
    ensures es[1..] != [] ==> es[0].oldEnd < es[1..][0].oldStart
  {
    hide Rows, Aligned, Mid, StartsInside, HeadAt;
    c, d := HeadAfter(es, selected, Rows(base), Rows(snapshot), Rows(after), i, j, x);
  }

  lemma HeadAtMeans(u: Edit, rejected: bool, b: seq<string>, s: seq<string>, r: seq<string>,
                    i: int, j: int, x: int, c: int, d: int)
    requires HeadAt(u, rejected, b, s, r, i, j, x, c, d)
    ensures 0 <= u.oldStart <= u.oldEnd && i <= u.oldStart
    ensures 0 <= j <= u.newStart < |s| && u.newStart <= u.newEnd <= |s|
    ensures 0 <= x <= c < |r| && c <= d <= |r| && c - x == u.oldStart - i
    ensures r[x..c] == s[j..u.newStart] && (d == |r| <==> u.newEnd == |s|)
    ensures rejected ==> d == c + u.oldEnd - u.oldStart && Around(u, b, r, c)
    ensures !rejected ==> r[c..d] == s[u.newStart..u.newEnd]
  {
    hide Around;
  }

  lemma InStepEnd(es: seq<Edit>, selected: seq<bool>, base: string, snapshot: string,
                  after: string, i: int, j: int, x: nat)
    requires InStep(es, selected, base, snapshot, after, i, j, x) && es == []
    ensures snapshot[RowStart(snapshot, j)..] == after[RowStart(after, x)..]
  {
    hide Rows, RowStart;
    assert Rows(after)[x..] == Rows(base)[i..] == Rows(snapshot)[j..];
    TailText(snapshot, j);
    TailText(after, x);
  }

  /** The reject on the bytes, from row `j` of the snapshot and row `x` of what it leaves on: the
      edits the buffer reports turn one text into the other, are separated, and are those of the
      selected edits that change the text, each between the starts of its rows. */
  lemma {:induction false} DiffOfReject(
      es: seq<Edit>, selected: seq<bool>, base: string, snapshot: string, after: string,
      i: int, j: int, x: nat, delta: int, from: int) returns (at: seq<nat>)
    requires InStep(es, selected, base, snapshot, after, i, j, x)
    requires RowStart(snapshot, j) + delta == RowStart(after, x)
    requires from < RowStart(after, x) || (from == RowStart(after, x) && (es == [] || i < es[0].oldStart))
    ensures Ranges(es) && |selected| == |es| && 0 <= j
    ensures var diff := ChangeEdits(RejectChanges(es, selected, base, snapshot), delta);
            && Aligned(snapshot, after, diff, RowStart(snapshot, j), RowStart(after, x))
            && SeparatedFrom(diff, from)
            && Cuts(diff, Rejects(es, selected, base, snapshot), at, base, snapshot, after)
    decreases |es|
  {
    hide *;
    InStepParts(es, selected, base, snapshot, after, i, j, x);
    if es == [] {
      InStepEnd(es, selected, base, snapshot, after, i, j, x);
      DiffEnds(es, selected, base, snapshot, after, j, x, delta, from);
      CutsNone(base, snapshot, after);
      at := [];
    } else {
      var u, rest, flags := es[0], es[1..], selected[1..];
      var c, d := InStepHead(es, selected, base, snapshot, after, i, j, x);
      HeadAtMeans(u, selected[0], Rows(base), Rows(snapshot), Rows(after), i, j, x, c, d);
      RejectHead(es, selected, base, snapshot);
      RejectsHead(es, selected, base, snapshot);
      RowStartIsMonotone(after, x, c);
      if x < c {
        RowStartGrows(after, x, c);
      }
      var next := RowStart(after, c);
      assert from < next;
      if selected[0] {
        HeadCut(u, base, snapshot, after, x, j, c, d, delta);
        var ch := Change(RowStart(snapshot, u.newStart), RowStart(snapshot, u.newEnd),
                         SliceRows(base, u.oldStart, u.oldEnd));
        ChangeEditsHead(ch, RejectChanges(rest, flags, base, snapshot), delta);
        var e := RowCut(snapshot, after, u.newStart, u.newEnd, c, d);
        RowCutIs(snapshot, after, u.newStart, u.newEnd, c, d);
        at := DiffOfReject(rest, flags, base, snapshot, after, u.oldEnd, u.newEnd, d,
                           delta + ch.Delta(), RowStart(after, d));
        var diff := ChangeEdits(RejectChanges(rest, flags, base, snapshot), delta + ch.Delta());
        ChangesTextIs(u, base, snapshot);
        DiffSelected(snapshot, after, e, diff, j, u.newStart, x, c, from);
        if ChangesText(u, base, snapshot) {
          CutsCons(e, u, c, diff, Rejects(rest, flags, base, snapshot), at, base, snapshot, after);
          at := [c] + at;
        } else {
          assert [] + diff == diff;
          assert [] + Rejects(rest, flags, base, snapshot) == Rejects(rest, flags, base, snapshot);
        }
      } else {
        SkippedText(snapshot, after, j, u.newStart, u.newEnd, x, c, d);
        RowStartIsMonotone(after, c, d);
        at := DiffOfReject(rest, flags, base, snapshot, after, u.oldEnd, u.newEnd, d, delta, from);
        var diff := ChangeEdits(RejectChanges(rest, flags, base, snapshot), delta);
        AlignedBack(snapshot, after, diff, RowStart(snapshot, u.newEnd), RowStart(after, d),
                    RowStart(snapshot, j), RowStart(after, x));
        assert [] + Rejects(rest, flags, base, snapshot) == Rejects(rest, flags, base, snapshot);
      }
    }
  }

  lemma InStepParts(es: seq<Edit>, selected: seq<bool>, base: string, snapshot: string,
                    after: string, i: int, j: int, x: nat)
    requires InStep(es, selected, base, snapshot, after, i, j, x)
    ensures Ranges(es) && |selected| == |es| && 0 <= j
  {
    hide Rows, Aligned, Mid, Ranges;
  }

  lemma DiffEnds(es: seq<Edit>, selected: seq<bool>, base: string, snapshot: string, after: string,
                 j: nat, x: nat, delta: int, from: int)
    requires es == [] && selected == [] && Ranges(es)
    requires snapshot[RowStart(snapshot, j)..] == after[RowStart(after, x)..]
    ensures RejectChanges(es, selected, base, snapshot) == [] && ChangeEdits([], delta) == []
    ensures Rejects(es, selected, base, snapshot) == []
    ensures Aligned(snapshot, after, [], RowStart(snapshot, j), RowStart(after, x))
    ensures SeparatedFrom([], from)
  {
    hide RowStart;
  }

  lemma RowCutIs(o: string, n: string, a: nat, b: nat, c: nat, d: nat)
    requires a <= b && c <= d
    ensures RowCut(o, n, a, b, c, d) == Edit(RowStart(o, a), RowStart(o, b), RowStart(n, c), RowStart(n, d))
    ensures RowStart(o, a) <= RowStart(o, b) <= |o| && RowStart(n, c) <= RowStart(n, d) <= |n|
  {
    hide RowStart;
    RowStartIsMonotone(o, a, b);
    RowStartIsMonotone(n, c, d);
  }

  lemma ChangesTextIs(u: Edit, base: string, snapshot: string)
    requires 0 <= u.oldStart <= u.oldEnd && 0 <= u.newStart <= u.newEnd
    ensures ChangesText(u, base, snapshot) <==>
            !(RowStart(snapshot, u.newStart) == RowStart(snapshot, u.newEnd)
              && SliceRows(base, u.oldStart, u.oldEnd) == "")
  {
    hide RowStart, SliceRows;
  }

  /** A rejected edit before the others, reported or, when it changes nothing, not. */
  lemma DiffSelected(snapshot: string, after: string, e: Edit, diff: seq<Edit>, j: nat, a: nat, x: nat, c: nat,
                     from: int)
    requires j <= a && x <= c && SliceRows(snapshot, j, a) == SliceRows(after, x, c)
    requires e.oldStart == RowStart(snapshot, a) && e.newStart == RowStart(after, c)
    requires e.oldStart <= e.oldEnd <= |snapshot| && e.newStart <= e.newEnd <= |after|
    requires Aligned(snapshot, after, diff, e.oldEnd, e.newEnd) && SeparatedFrom(diff, e.newEnd)
    requires from < e.newStart
    ensures Aligned(snapshot, after, [e] + diff, RowStart(snapshot, j), RowStart(after, x))
    ensures SeparatedFrom([e] + diff, from)
    ensures e.oldStart == e.oldEnd && e.newStart == e.newEnd ==>
              Aligned(snapshot, after, diff, RowStart(snapshot, j), RowStart(after, x))
              && SeparatedFrom(diff, from)
  {
    hide RowStart, Aligned, SliceRows;
    SliceLength(snapshot, j, a);
    SliceLength(after, x, c);
    AlignedCons(snapshot, after, e, diff, RowStart(snapshot, j), RowStart(after, x));
    assert ([e] + diff)[1..] == diff;
    SeparatedFromLower(diff, e.newEnd, from);
    if e.oldStart == e.oldEnd && e.newStart == e.newEnd {
      AlignedBack(snapshot, after, diff, e.oldEnd, e.newEnd, RowStart(snapshot, j), RowStart(after, x));
    }
  }

  /** An edit that is not rejected: its rows read the same in both texts. */
  lemma SkippedText(snapshot: string, after: string, j: nat, a: nat, b: nat, x: nat, c: nat, d: nat)
    requires j <= a <= b <= |Rows(snapshot)| && a < |Rows(snapshot)|
    requires x <= c <= d <= |Rows(after)| && c < |Rows(after)|
    requires Rows(after)[x..c] == Rows(snapshot)[j..a] && Rows(after)[c..d] == Rows(snapshot)[a..b]
    requires d == |Rows(after)| <==> b == |Rows(snapshot)|
    ensures RowStart(snapshot, j) <= RowStart(snapshot, b) <= |snapshot|
    ensures RowStart(after, x) <= RowStart(after, d) <= |after|
    ensures snapshot[RowStart(snapshot, j)..RowStart(snapshot, b)] == after[RowStart(after, x)..RowStart(after, d)]
  {
    hide Rows, RowStart, SliceRows;
    var r, s := Rows(after), Rows(snapshot);
    assert r[x..d] == r[x..c] + r[c..d] && s[j..b] == s[j..a] + s[a..b];
    SameRowsText(snapshot, after, j, b, x, d);
    SliceLength(snapshot, j, b);
    SliceLength(after, x, d);
  }

  // ----- the rows that come back

  ghost predicate FitsIn(u: Edit, b: seq<string>, s: seq<string>) {
    && 0 <= u.oldStart <= u.oldEnd <= |b| && u.oldStart < |b|
    && 0 <= u.newStart <= u.newEnd <= |s| && u.newStart < |s|
    && (u.newEnd == |s| <==> u.oldEnd == |b|)
  }

  /** The row the edit starts on is blank on both sides. */
  predicate StartsBlank(u: Edit, b: seq<string>, s: seq<string>) {
    Blank(b, u.oldStart) && Blank(s, u.newStart)
  }

  /** The row edit `w` is the reject of `u` come back: it starts a row late when the row `u` starts
      on is blank on both sides, and ends a row late then, or when it runs to the end and not both
      texts end in a blank row. */
  ghost predicate BackAs(w: Edit, u: Edit, b: seq<string>, s: seq<string>) {
    BackFrom(w, u, b, s) && BackTo(w, u, b, s)
  }

  ghost predicate BackFrom(w: Edit, u: Edit, b: seq<string>, s: seq<string>) {
    w.oldStart == u.newStart + if StartsBlank(u, b, s) then 1 else 0
  }

  ghost predicate BackTo(w: Edit, u: Edit, b: seq<string>, s: seq<string>) {
    w.oldEnd == LastPoint(u.newEnd, |s|)
                + if StartsBlank(u, b, s) || (u.newEnd == |s| && !EndsBlank(b, s)) then 1 else 0
  }

  lemma CutComesBack(e: Edit, u: Edit, c: nat, base: string, snapshot: string, after: string)
    requires CutAt(e, u, c, base, snapshot, after)
    ensures e.Within(snapshot, after) && FitsIn(u, Rows(base), Rows(snapshot))
    ensures BackAs(RowEditOf(e, snapshot, after), u, Rows(base), Rows(snapshot))
  {
    hide Rows, RowEditOf, RowCut, Around;
    var b, r, d := Rows(base), Rows(after), c + u.oldEnd - u.oldStart;
    AroundMeans(u, b, r, c);
    AroundBlank(u, b, r, c);
    ComesBackAs(snapshot, after, u.newStart, u.newEnd, c, d);
  }

  /** The blank rows the rule looks at are those of the base. */
  lemma AroundBlank(u: Edit, b: seq<string>, r: seq<string>, c: nat)
    requires Around(u, b, r, c)
    ensures 0 <= u.oldStart < |b| && c < |r| && (Blank(r, c) <==> Blank(b, u.oldStart))
    ensures u.oldEnd == |b| ==> r[|r| - 1] == b[|b| - 1]
  {
    if u.oldEnd == |b| {
      var k := |b| - u.oldStart - 1;
      assert r[c..][k] == r[|r| - 1] && b[u.oldStart..][k] == b[|b| - 1];
      assert r[c..] == r[c..|r|] && b[u.oldStart..] == b[u.oldStart..|b|];
    }
  }

  lemma {:induction false} RowEditsAt(o: string, es: seq<Edit>, n: string, i: int, j: int, p: nat)
    requires Aligned(o, n, es, i, j) && p < |es|
    ensures |RowEdits(o, es, n, i, j)| == |es| && es[p].Within(o, n)
    ensures RowEdits(o, es, n, i, j)[p] == RowEditOf(es[p], o, n)
    decreases |es|
  {
    hide RowEdits, RowEditOf;
    RowEditCount(o, es, n, i, j);
    RowEditsHead(o, es, n, i, j);
    if p > 0 {
      assert es[1..][p - 1] == es[p];
      RowEditsAt(o, es[1..], n, es[0].oldEnd, es[0].newEnd, p - 1);
    }
  }

  /** The rejected edits are some of the unreviewed edits, in order. */
  lemma {:induction false} RejectsAmong(es: seq<Edit>, selected: seq<bool>, base: string, snapshot: string)
    requires |selected| == |es| && Ranges(es) && OrderedNew(es)
    ensures var rs := Rejects(es, selected, base, snapshot);
            OrderedNew(rs) && forall p :: 0 <= p < |rs| ==> rs[p] in es
  {
    hide ChangesText, OrderedNew, Rejects;
    if es != [] {
      RejectsHead(es, selected, base, snapshot);
      OrderedTail(es, []);
      RejectsAmong(es[1..], selected[1..], base, snapshot);
      InFront(es, Rejects(es[1..], selected[1..], base, snapshot));
    } else {
      RejectsNone(es, selected, base, snapshot);
    }
  }

  lemma RejectsNone(es: seq<Edit>, selected: seq<bool>, base: string, snapshot: string)
    requires es == [] && selected == [] && Ranges(es)
    ensures Rejects(es, selected, base, snapshot) == [] && OrderedNew([])
  {
  }

  lemma InFront(es: seq<Edit>, rs: seq<Edit>)
    requires es != [] && OrderedNew(es) && OrderedNew(rs) && forall p :: 0 <= p < |rs| ==> rs[p] in es[1..]
    ensures OrderedNew([es[0]] + rs) && [] + rs == rs && es[0] in es
    ensures forall p :: 0 <= p < |rs| ==> rs[p] in es
  {
    forall p | 0 <= p < |rs|
      ensures es[0].newEnd < rs[p].newStart && rs[p] in es
    {
      assert rs[p] in es[1..];
      LaterOne(es, rs[p]);
    }
    assert es[0].newStart <= es[0].newEnd;
    OrderedCons(es[0], rs);
  }

  lemma LaterOne(es: seq<Edit>, e: Edit)
    requires es != [] && OrderedNew(es) && e in es[1..]
    ensures e in es && es[0].newEnd < e.newStart
  {
    var t :| 0 <= t < |es[1..]| && es[1..][t] == e;
    assert es[t + 1] == e;
  }

  lemma OrderedCons(e: Edit, rs: seq<Edit>)
    requires OrderedNew(rs) && e.newStart <= e.newEnd && forall p :: 0 <= p < |rs| ==> e.newEnd < rs[p].newStart
    ensures OrderedNew([e] + rs)
  {
    var all := [e] + rs;
    forall p, q | 0 <= p < q < |all|
      ensures all[p].newEnd < all[q].newStart
    {
      assert all[q] == rs[q - 1];
      assert p > 0 ==> all[p] == rs[p - 1];
    }
  }

  // ----- which come back as edits the log applies

  /** An unreviewed edit that leaves no rows stands at the row. */
  ghost predicate EmptyAt(es: seq<Edit>, row: int) {
    exists t :: 0 <= t < |es| && es[t].newStart == es[t].newEnd == row
  }

  /** The reject comes back as an edit of rows the unreviewed edit does not touch: it left at
      most one row, and that is blank, as is what the reject puts there. */
  predicate Escapes(u: Edit, b: seq<string>, s: seq<string>) {
    u.newEnd <= u.newStart + 1 &&
    (StartsBlank(u, b, s) || (u.newStart + 1 == u.newEnd == |s| && EndsBlank(b, s)))
  }

  /** Two rejected edits come back as one. */
  predicate Meets(u: Edit, v: Edit, b: seq<string>, s: seq<string>) {
    StartsBlank(u, b, s) && !StartsBlank(v, b, s) && u.newEnd + 1 == v.newStart
  }

  ghost predicate InPlace(es: seq<Edit>, s: seq<string>) {
    OrderedNew(es) && forall t :: 0 <= t < |es| ==> 0 <= es[t].newStart < |s|
  }

  /** Another unreviewed edit lies before or after. */
  lemma Elsewhere(es: seq<Edit>, u: Edit, t: nat)
    requires OrderedNew(es) && u in es && t < |es|
    ensures es[t] == u || es[t].newEnd < u.newStart || u.newEnd < es[t].newStart
    ensures es[t].newStart <= es[t].newEnd
  {
    var k :| 0 <= k < |es| && es[k] == u;
  }

  lemma OwnRows(w: Edit, u: Edit, b: seq<string>, s: seq<string>)
    requires FitsIn(u, b, s) && BackAs(w, u, b, s)
    ensures Conflict(w, u) <==> !Escapes(u, b, s)
    ensures w.oldStart >= u.newStart && w.oldEnd <= u.newEnd + 1
    ensures Escapes(u, b, s) && StartsBlank(u, b, s) ==> w.oldEnd == u.newEnd + 1
    ensures Escapes(u, b, s) && !StartsBlank(u, b, s) ==> u.newEnd == |s| && w.oldEnd < |s|
  {
  }

  /** A rejected edit that comes back alone is applied if and only if it escapes and no unreviewed
      edit without rows stands where it ends. */
  lemma AllowedAlone(es: seq<Edit>, u: Edit, w: Edit, b: seq<string>, s: seq<string>)
    requires InPlace(es, s) && u in es && FitsIn(u, b, s) && BackAs(w, u, b, s)
    ensures Allowed(es, w) <==> Escapes(u, b, s) && !EmptyAt(es, u.newEnd + 1)
  {
    OwnRows(w, u, b, s);
    StartsByThen(w, u, b, s);
    hide BackAs, Escapes, StartsBlank, FitsIn;
    if !Escapes(u, b, s) {
      var k :| 0 <= k < |es| && es[k] == u;
      assert Conflict(w, es[k]);
    } else if EmptyAt(es, u.newEnd + 1) {
      var t :| 0 <= t < |es| && es[t].newStart == es[t].newEnd == u.newEnd + 1;
      assert 0 <= es[t].newStart < |s|;
      Elsewhere(es, u, t);
      assert Conflict(w, es[t]);
    } else {
      forall t | 0 <= t < |es|
        ensures !Conflict(w, es[t])
      {
        Elsewhere(es, u, t);
      }
    }
  }

  lemma StartsByThen(w: Edit, u: Edit, b: seq<string>, s: seq<string>)
    requires FitsIn(u, b, s) && BackAs(w, u, b, s)
    ensures w.oldStart <= u.newEnd + 1
  {
  }

  /** Two that come back as one are applied if and only if both escape. */
  lemma AllowedPair(es: seq<Edit>, u: Edit, v: Edit, w: Edit, b: seq<string>, s: seq<string>)
    requires InPlace(es, s) && u in es && v in es && FitsIn(u, b, s) && FitsIn(v, b, s)
    requires Meets(u, v, b, s) && BackFrom(w, u, b, s) && BackTo(w, v, b, s)
    ensures Allowed(es, w) <==> Escapes(u, b, s) && Escapes(v, b, s)
    ensures Escapes(v, b, s) ==> !EmptyAt(es, u.newEnd + 1)
  {
    PairRows(w, u, v, b, s);
    if v.newStart < v.newEnd {
      TakenRow(es, v);
    }
    hide Escapes, StartsBlank, FitsIn, BackFrom, BackTo;
    if !Escapes(u, b, s) {
      var k :| 0 <= k < |es| && es[k] == u;
      assert Conflict(w, es[k]);
    } else if !Escapes(v, b, s) {
      var k :| 0 <= k < |es| && es[k] == v;
      assert Conflict(w, es[k]);
    } else {
      forall t | 0 <= t < |es|
        ensures !Conflict(w, es[t])
      {
        Elsewhere(es, u, t);
        Elsewhere(es, v, t);
      }
    }
  }

  lemma TakenRow(es: seq<Edit>, v: Edit)
    requires OrderedNew(es) && v in es && v.newStart < v.newEnd
    ensures !EmptyAt(es, v.newStart)
  {
    forall t | 0 <= t < |es|
      ensures !(es[t].newStart == es[t].newEnd == v.newStart)
    {
      Elsewhere(es, v, t);
    }
  }

  lemma PairRows(w: Edit, u: Edit, v: Edit, b: seq<string>, s: seq<string>)
    requires FitsIn(u, b, s) && FitsIn(v, b, s) && u.newEnd < v.newStart
    requires Meets(u, v, b, s) && BackFrom(w, u, b, s) && BackTo(w, v, b, s)
    ensures !Escapes(u, b, s) ==> Conflict(w, u)
    ensures !Escapes(v, b, s) ==> Conflict(w, v)
    ensures Escapes(u, b, s) ==> !Conflict(w, u) && w.oldStart > u.newStart
    ensures Escapes(v, b, s) ==> !Conflict(w, v) && w.oldEnd <= v.newEnd && v.newStart < v.newEnd
  {
  }

  // ----- the edits that come back, merged

  /** The rows `ws` are the rejects `rs` come back, one by one. */
  ghost predicate AllBack(ws: seq<Edit>, rs: seq<Edit>, b: seq<string>, s: seq<string>) {
    |ws| == |rs| && OrderedNew(rs) &&
    forall p :: 0 <= p < |rs| ==> FitsIn(rs[p], b, s) && BackAs(ws[p], rs[p], b, s)
  }

  lemma AllBackFrom(ws: seq<Edit>, rs: seq<Edit>, b: seq<string>, s: seq<string>, k: nat)
    requires AllBack(ws, rs, b, s) && k <= |ws|
    ensures AllBack(ws[k..], rs[k..], b, s)
  {
    hide BackAs, FitsIn;
  }

  /** One edit absorbs the next exactly when they meet, and then no other. */
  lemma AbsorbsNext(ws: seq<Edit>, rs: seq<Edit>, b: seq<string>, s: seq<string>, p: nat)
    requires AllBack(ws, rs, b, s) && p + 1 < |ws|
    ensures FitsIn(rs[p], b, s) && FitsIn(rs[p + 1], b, s)
    ensures ws[p].oldEnd >= ws[p + 1].oldStart <==> Meets(rs[p], rs[p + 1], b, s)
  {
    assert rs[p].newEnd < rs[p + 1].newStart;
  }

  /** Merging goes by pairs at most: the second of two that meet meets no third. */
  lemma MergeByPairs(ws: seq<Edit>, rs: seq<Edit>, b: seq<string>, s: seq<string>)
    requires AllBack(ws, rs, b, s) && ws != []
    ensures FitsIn(rs[0], b, s) && (|rs| > 1 ==> FitsIn(rs[1], b, s))
    ensures Merge(ws) == if |ws| > 1 && Meets(rs[0], rs[1], b, s)
                         then [Extend(ws[0], ws[1])] + Merge(ws[2..])
                         else [ws[0]] + Merge(ws[1..])
  {
    hide BackAs, FitsIn, Meets, MergeFrom;
    assert FitsIn(rs[0], b, s) && (|rs| > 1 ==> FitsIn(rs[1], b, s));
    if |ws| > 1 {
      AbsorbsNext(ws, rs, b, s, 0);
      assert ws[1..] == [ws[1]] + ws[2..];
      MergeStep(ws[0], ws[1], ws[2..]);
      if Meets(rs[0], rs[1], b, s) {
        if |ws| > 2 {
          AbsorbsNext(ws, rs, b, s, 1);
          MeetsOnce(rs[0], rs[1], rs[2], b, s);
        }
        MergeAlone(Extend(ws[0], ws[1]), ws[2..]);
      } else {
        MergeIs(ws[1..]);
      }
    } else {
      MergeAlone(ws[0], ws[1..]);
    }
  }

  lemma MeetsOnce(u: Edit, v: Edit, x: Edit, b: seq<string>, s: seq<string>)
    requires FitsIn(u, b, s) && FitsIn(v, b, s) && FitsIn(x, b, s) && Meets(u, v, b, s)
    ensures !Meets(v, x, b, s)
  {
  }

  ghost predicate AnyAllowed(es: seq<Edit>, ws: seq<Edit>) {
    exists q :: 0 <= q < |ws| && Allowed(es, ws[q])
  }

  lemma AnyAllowedCons(es: seq<Edit>, w: Edit, ws: seq<Edit>)
    ensures AnyAllowed(es, [w] + ws) <==> Allowed(es, w) || AnyAllowed(es, ws)
  {
    hide Allowed;
    if Allowed(es, w) {
      assert ([w] + ws)[0] == w;
    } else if AnyAllowed(es, ws) {
      var q :| 0 <= q < |ws| && Allowed(es, ws[q]);
      assert ([w] + ws)[q + 1] == ws[q];
    }
  }

  /** The reject of `rs[p]` ends up in the reviewed text: it escapes, no unreviewed edit without
      rows stands where it comes back, and one that comes back as one with it escapes too. */
  ghost predicate Slips(es: seq<Edit>, rs: seq<Edit>, b: seq<string>, s: seq<string>, p: int)
    requires 0 <= p < |rs|
  {
    && Escapes(rs[p], b, s) && !EmptyAt(es, rs[p].newEnd + 1)
    && (p + 1 < |rs| && Meets(rs[p], rs[p + 1], b, s) ==> Escapes(rs[p + 1], b, s))
    && (p > 0 && Meets(rs[p - 1], rs[p], b, s) ==> Escapes(rs[p - 1], b, s))
  }

  ghost predicate AllFit(rs: seq<Edit>, b: seq<string>, s: seq<string>) {
    forall k :: 0 <= k < |rs| ==> FitsIn(rs[k], b, s)
  }

  ghost predicate AnySlips(es: seq<Edit>, rs: seq<Edit>, b: seq<string>, s: seq<string>, from: int) {
    exists p :: 0 <= from <= p < |rs| && Slips(es, rs, b, s, p)
  }

  lemma AnySlipsStep(es: seq<Edit>, rs: seq<Edit>, b: seq<string>, s: seq<string>, from: nat)
    requires from < |rs|
    ensures AnySlips(es, rs, b, s, from) <==>
            Slips(es, rs, b, s, from) || AnySlips(es, rs, b, s, from + 1)
  {
    hide Slips;
  }

  lemma AllBackFits(ws: seq<Edit>, rs: seq<Edit>, b: seq<string>, s: seq<string>)
    requires AllBack(ws, rs, b, s)
    ensures |ws| == |rs| && AllFit(rs, b, s)
  {
    hide BackAs, FitsIn;
  }

  /** What the log applies, from one of the rejected edits on. */
  lemma {:induction false} AppliedFrom(
      es: seq<Edit>, ws: seq<Edit>, rs: seq<Edit>, b: seq<string>, s: seq<string>, from: nat)
    requires AllBack(ws, rs, b, s) && InPlace(es, s) && (forall p :: 0 <= p < |rs| ==> rs[p] in es)
    requires from <= |rs|
    requires 0 < from < |rs| ==> !Meets(rs[from - 1], rs[from], b, s)
    ensures AnyAllowed(es, Merge(ws[from..])) <==> AnySlips(es, rs, b, s, from)
    decreases |rs| - from
  {
    hide *;
    AllBackFits(ws, rs, b, s);
    if from == |rs| {
      NoneAtEnd(es, ws, rs, b, s, from);
    } else {
      var tail := ws[from..];
      AllBackFrom(ws, rs, b, s, from);
      MergeByPairs(tail, rs[from..], b, s);
      BackAt(ws, rs, b, s, from);
      AnySlipsStep(es, rs, b, s, from);
      if from + 1 < |rs| && Meets(rs[from], rs[from + 1], b, s) {
        BackAt(ws, rs, b, s, from + 1);
        PairExtends(ws[from], ws[from + 1], rs[from], rs[from + 1], b, s);
        AllowedPair(es, rs[from], rs[from + 1], Extend(ws[from], ws[from + 1]), b, s);
        AnyAllowedCons(es, Extend(ws[from], ws[from + 1]), Merge(ws[from + 2..]));
        assert tail[2..] == ws[from + 2..];
        AnySlipsStep(es, rs, b, s, from + 1);
        PairSlips(es, rs, b, s, from);
        if from + 2 < |rs| {
          FitsAt(rs, b, s, from + 2);
          MeetsOnce(rs[from], rs[from + 1], rs[from + 2], b, s);
        }
        AppliedFrom(es, ws, rs, b, s, from + 2);
      } else {
        AllowedAlone(es, rs[from], ws[from], b, s);
        AnyAllowedCons(es, ws[from], Merge(ws[from + 1..]));
        assert tail[1..] == ws[from + 1..];
        AloneSlips(es, rs, b, s, from);
        AppliedFrom(es, ws, rs, b, s, from + 1);
      }
    }
  }

  lemma NoneAtEnd(es: seq<Edit>, ws: seq<Edit>, rs: seq<Edit>, b: seq<string>, s: seq<string>, from: nat)
    requires |ws| == |rs| == from
    ensures !AnyAllowed(es, Merge(ws[from..])) && !AnySlips(es, rs, b, s, from)
  {
  }

  lemma BackAt(ws: seq<Edit>, rs: seq<Edit>, b: seq<string>, s: seq<string>, p: nat)
    requires AllBack(ws, rs, b, s) && p < |rs|
    ensures FitsIn(rs[p], b, s) && BackAs(ws[p], rs[p], b, s)
    ensures 0 <= rs[p].newStart < |s| && 0 <= rs[p].oldStart < |b|
  {
    hide BackAs;
  }

  lemma FitsAt(rs: seq<Edit>, b: seq<string>, s: seq<string>, p: nat)
    requires AllFit(rs, b, s) && p < |rs|
    ensures FitsIn(rs[p], b, s) && 0 <= rs[p].newStart < |s| && 0 <= rs[p].oldStart < |b|
  {
  }

  lemma PairExtends(w: Edit, w': Edit, u: Edit, v: Edit, b: seq<string>, s: seq<string>)
    requires FitsIn(u, b, s) && FitsIn(v, b, s) && BackAs(w, u, b, s) && BackAs(w', v, b, s)
    ensures BackFrom(Extend(w, w'), u, b, s) && BackTo(Extend(w, w'), v, b, s)
  {
  }

  /** Of two that come back as one, either slips exactly when both escape. */
  lemma PairSlips(es: seq<Edit>, rs: seq<Edit>, b: seq<string>, s: seq<string>, p: nat)
    requires p + 1 < |rs| && Meets(rs[p], rs[p + 1], b, s)
    requires Escapes(rs[p + 1], b, s) ==> !EmptyAt(es, rs[p].newEnd + 1)
    ensures Slips(es, rs, b, s, p) || Slips(es, rs, b, s, p + 1) <==>
            Escapes(rs[p], b, s) && Escapes(rs[p + 1], b, s)
  {
    hide EmptyAt, EndsBlank, Blank;
  }

  lemma AloneSlips(es: seq<Edit>, rs: seq<Edit>, b: seq<string>, s: seq<string>, p: nat)
    requires p < |rs|
    requires p + 1 < |rs| ==> !Meets(rs[p], rs[p + 1], b, s)
    requires p > 0 ==> !Meets(rs[p - 1], rs[p], b, s)
    ensures Slips(es, rs, b, s, p) <==> Escapes(rs[p], b, s) && !EmptyAt(es, rs[p].newEnd + 1)
  {
    hide EmptyAt, Escapes, Meets;
  }

  // ----- the theorem

  lemma {:induction false} ChangeEditsNotEmpty(cs: seq<Change<char>>, delta: int, k: nat)
    requires k < |ChangeEdits(cs, delta)|
    ensures !ChangeEdits(cs, delta)[k].IsEmpty()
  {
    var c, delta' := cs[0], delta + cs[0].Delta();
    assert cs == [c] + cs[1..];
    ChangeEditsHead(c, cs[1..], delta);
    hide ChangeEdits;
    if c.start == c.end && c.rows == "" {
      ChangeEditsNotEmpty(cs[1..], delta', k);
    } else if k > 0 {
      ChangeEditsNotEmpty(cs[1..], delta', k - 1);
    } else {
      assert |c.rows| == 0 ==> c.rows == "";
    }
  }

  /** The buffer after the reject. */
  function AfterReject(es: seq<Edit>, selected: seq<bool>, base: string, snapshot: string): string
    requires |selected| == |es| && Ranges(es)
  {
    Apply(snapshot, RejectChanges(es, selected, base, snapshot), 0)
  }

  /** The edits of the reject, as the buffer reports them. */
  function RejectDiff(es: seq<Edit>, selected: seq<bool>, base: string, snapshot: string): seq<Edit>
    requires |selected| == |es| && Ranges(es)
  {
    ChangeEdits(RejectChanges(es, selected, base, snapshot), 0)
  }

  /** The buffer reports the reject of any selection as a diff: its edits turn the snapshot into
      what the reject leaves, are separated and not empty, and are those of the selected edits that
      change the text, each between the starts of its rows. */
  lemma RejectIsDiff(es: seq<Edit>, selected: seq<bool>, base: string, snapshot: string)
      returns (at: seq<nat>)
    requires Rep(Rows(base), es, Rows(snapshot)) && |selected| == |es|
    ensures Ranges(es)
    ensures var diff, after := RejectDiff(es, selected, base, snapshot), AfterReject(es, selected, base, snapshot);
            && UnitDiff(snapshot, diff, after)
            && Cuts(diff, Rejects(es, selected, base, snapshot), at, base, snapshot, after)
  {
    hide *;
    RejectTheorem(es, selected, base, snapshot);
    RepOrdered(Rows(base), es, Rows(snapshot));
    RepParts(Rows(base), es, Rows(snapshot));
    var cs, after := RejectChanges(es, selected, base, snapshot), AfterReject(es, selected, base, snapshot);
    AfterIs(es, selected, base, snapshot);
    StartInStep(es, selected, base, snapshot, after);
    RowStartZero(snapshot);
    RowStartZero(after);
    at := DiffOfReject(es, selected, base, snapshot, after, 0, 0, 0, 0, -1);
    forall k | 0 <= k < |ChangeEdits(cs, 0)|
      ensures !ChangeEdits(cs, 0)[k].IsEmpty()
    {
      ChangeEditsNotEmpty(cs, 0, k);
    }
    UnitDiffIs(snapshot, ChangeEdits(cs, 0), after);
  }

  lemma AfterIs(es: seq<Edit>, selected: seq<bool>, base: string, snapshot: string)
    requires |selected| == |es| && Ranges(es)
    ensures AfterReject(es, selected, base, snapshot)
            == Apply(snapshot, RejectChanges(es, selected, base, snapshot), 0)
    ensures RejectDiff(es, selected, base, snapshot)
            == ChangeEdits(RejectChanges(es, selected, base, snapshot), 0)
  {
    hide Apply, RejectChanges, ChangeEdits;
  }

  lemma StartInStep(es: seq<Edit>, selected: seq<bool>, base: string, snapshot: string, after: string)
    requires |selected| == |es| && OrderedOld(es) && Ranges(es)
    requires Aligned(Rows(base), Rows(snapshot), es, 0, 0) && StartsInside(Rows(base), Rows(snapshot), es)
    requires Rows(after) == Mid(Rows(base), Rows(snapshot), es, Not(selected), 0, 0)
    ensures InStep(es, selected, base, snapshot, after, 0, 0, 0)
  {
    hide Rows, OrderedOld, Ranges, Aligned, StartsInside, Mid;
    assert Rows(after)[0..] == Rows(after);
  }

  lemma UnitDiffIs(o: string, es: seq<Edit>, n: string)
    requires Aligned(o, n, es, 0, 0) && SeparatedFrom(es, -1)
    requires forall k :: 0 <= k < |es| ==> !es[k].IsEmpty()
    ensures UnitDiff(o, es, n)
  {
    hide Aligned, SeparatedFrom;
  }

  /** The row edits the reject comes back as, before those that meet are merged. */
  lemma RejectsComeBack(es: seq<Edit>, selected: seq<bool>, base: string, snapshot: string)
    requires Rep(Rows(base), es, Rows(snapshot)) && |selected| == |es|
    ensures Ranges(es)
    ensures var diff, after := RejectDiff(es, selected, base, snapshot), AfterReject(es, selected, base, snapshot);
            && UnitDiff(snapshot, diff, after)
            && AllBack(RowEdits(snapshot, diff, after, 0, 0), Rejects(es, selected, base, snapshot),
                       Rows(base), Rows(snapshot))
  {
    hide *;
    var b, s := Rows(base), Rows(snapshot);
    var at := RejectIsDiff(es, selected, base, snapshot);
    var diff, after := RejectDiff(es, selected, base, snapshot), AfterReject(es, selected, base, snapshot);
    var rs := Rejects(es, selected, base, snapshot);
    RepOrdered(b, es, s);
    RejectsAmong(es, selected, base, snapshot);
    UnitDiffAligned(snapshot, diff, after);
    CutsCount(diff, rs, at, base, snapshot, after);
    RowEditCount(snapshot, diff, after, 0, 0);
    var ws := RowEdits(snapshot, diff, after, 0, 0);
    forall p | 0 <= p < |rs|
      ensures FitsIn(rs[p], b, s) && BackAs(ws[p], rs[p], b, s)
    {
      RowEditsAt(snapshot, diff, after, 0, 0, p);
      CutsAt(diff, rs, at, base, snapshot, after, p);
      CutComesBack(diff[p], rs[p], at[p], base, snapshot, after);
    }
    AllBackIs(ws, rs, b, s);
  }

  lemma CutsCount(diff: seq<Edit>, rs: seq<Edit>, at: seq<nat>, base: string, snapshot: string, after: string)
    requires Cuts(diff, rs, at, base, snapshot, after)
    ensures |diff| == |rs| == |at|
  {
    hide CutAt;
  }

  lemma CutsAt(diff: seq<Edit>, rs: seq<Edit>, at: seq<nat>, base: string, snapshot: string, after: string, p: nat)
    requires Cuts(diff, rs, at, base, snapshot, after) && p < |diff| == |rs| == |at|
    ensures CutAt(diff[p], rs[p], at[p], base, snapshot, after)
  {
    hide CutAt;
  }

  lemma AllBackIs(ws: seq<Edit>, rs: seq<Edit>, b: seq<string>, s: seq<string>)
    requires |ws| == |rs| && OrderedNew(rs)
    requires forall p :: 0 <= p < |rs| ==> FitsIn(rs[p], b, s) && BackAs(ws[p], rs[p], b, s)
    ensures AllBack(ws, rs, b, s)
  {
    hide FitsIn, BackAs, OrderedNew;
  }

  /** The feedback theorem, for every patch and every selection: among the edits a reject comes
      back as there is one the log applies to the reviewed text if and only if one of the rejected
      edits slips. */
  lemma FeedbackIsApplied(es: seq<Edit>, selected: seq<bool>, base: string, snapshot: string)
    requires Rep(Rows(base), es, Rows(snapshot)) && |selected| == |es|
    ensures Ranges(es)
    ensures var diff, after := RejectDiff(es, selected, base, snapshot), AfterReject(es, selected, base, snapshot);
            && UnitDiff(snapshot, diff, after)
            && (AnyAllowed(es, Merge(RowEdits(snapshot, diff, after, 0, 0))) <==>
                AnySlips(es, Rejects(es, selected, base, snapshot), Rows(base), Rows(snapshot), 0))
  {
    hide *;
    var b, s := Rows(base), Rows(snapshot);
    RejectsComeBack(es, selected, base, snapshot);
    var diff, after := RejectDiff(es, selected, base, snapshot), AfterReject(es, selected, base, snapshot);
    UnitDiffAligned(snapshot, diff, after);
    var rs, ws := Rejects(es, selected, base, snapshot), RowEdits(snapshot, diff, after, 0, 0);
    RepOrdered(b, es, s);
    RepParts(b, es, s);
    RejectsAmong(es, selected, base, snapshot);
    InPlaceIs(b, es, s);
    assert ws[0..] == ws;
    AppliedFrom(es, ws, rs, b, s, 0);
  }

  lemma InPlaceIs(b: seq<string>, es: seq<Edit>, s: seq<string>)
    requires OrderedNew(es) && StartsInside(b, s, es) && Ranges(es)
    ensures InPlace(es, s)
  {
    hide OrderedNew;
  }

  /** When none slips, the update that follows the reject leaves the reviewed text as it is. */
  lemma RejectLeavesBase(es: seq<Edit>, selected: seq<bool>, base: string, snapshot: string)
    requires Rep(Rows(base), es, Rows(snapshot)) && |selected| == |es|
    requires Ranges(es) && !AnySlips(es, Rejects(es, selected, base, snapshot), Rows(base), Rows(snapshot), 0)
    ensures var diff, after := RejectDiff(es, selected, base, snapshot), AfterReject(es, selected, base, snapshot);
            && UnitDiff(snapshot, diff, after)
            && RebasedBase(Rows(base), es, Merge(RowEdits(snapshot, diff, after, 0, 0)), Rows(after))
               == Rows(base)
  {
    hide *;
    FeedbackIsApplied(es, selected, base, snapshot);
    RepParts(Rows(base), es, Rows(snapshot));
    var diff, after := RejectDiff(es, selected, base, snapshot), AfterReject(es, selected, base, snapshot);
    UnitDiffAligned(snapshot, diff, after);
    BaseStays(Rows(base), Rows(snapshot), es, Merge(RowEdits(snapshot, diff, after, 0, 0)), Rows(after));
  }

  lemma BaseStays(b: seq<string>, s: seq<string>, us: seq<Edit>, vs: seq<Edit>, n: seq<string>)
    requires Aligned(b, s, us, 0, 0) && !AnyAllowed(us, vs)
    ensures RebasedBase(b, us, vs, n) == b
  {
    hide Allowed, Rebased;
    NoneAllowed(us, vs, n);
    NoChanges(b, s, us, 0, 0);
    assert b[0..] == b;
  }

  // ----- one edit rejected

  ghost predicate OnlyOne(selected: seq<bool>, k: nat) {
    k < |selected| && forall t :: 0 <= t < |selected| ==> (selected[t] <==> t == k)
  }

  lemma {:induction false} RejectsOnlyOne(es: seq<Edit>, selected: seq<bool>, base: string, snapshot: string, k: nat)
    requires |selected| == |es| && Ranges(es) && OnlyOne(selected, k) && ChangesText(es[k], base, snapshot)
    ensures Rejects(es, selected, base, snapshot) == [es[k]]
  {
    hide ChangesText;
    if k == 0 {
      RejectsNoneOf(es[1..], selected[1..], base, snapshot);
    } else {
      assert es[1..][k - 1] == es[k];
      RejectsOnlyOne(es[1..], selected[1..], base, snapshot, k - 1);
    }
  }

  lemma {:induction false} RejectsNoneOf(es: seq<Edit>, selected: seq<bool>, base: string, snapshot: string)
    requires |selected| == |es| && Ranges(es) && forall t :: 0 <= t < |selected| ==> !selected[t]
    ensures Rejects(es, selected, base, snapshot) == []
  {
    if es != [] {
      RejectsNoneOf(es[1..], selected[1..], base, snapshot);
    }
  }

  lemma {:induction false} RejectsOnlyOneNot(es: seq<Edit>, selected: seq<bool>, base: string, snapshot: string, k: nat)
    requires |selected| == |es| && Ranges(es) && OnlyOne(selected, k) && !ChangesText(es[k], base, snapshot)
    ensures Rejects(es, selected, base, snapshot) == []
  {
    hide ChangesText;
    if k == 0 {
      RejectsNoneOf(es[1..], selected[1..], base, snapshot);
    } else {
      assert es[1..][k - 1] == es[k];
      RejectsOnlyOneNot(es[1..], selected[1..], base, snapshot, k - 1);
    }
  }

  /** The reject of one edit of any patch comes back as an edit the log applies if and only if it
      changes the text and escapes, and no unreviewed edit without rows stands where it comes
      back. */
  lemma OneRejected(es: seq<Edit>, selected: seq<bool>, base: string, snapshot: string, k: nat)
    requires Rep(Rows(base), es, Rows(snapshot)) && |selected| == |es| && OnlyOne(selected, k)
    ensures Ranges(es)
    ensures var diff, after := RejectDiff(es, selected, base, snapshot), AfterReject(es, selected, base, snapshot);
            && UnitDiff(snapshot, diff, after)
            && (AnyAllowed(es, Merge(RowEdits(snapshot, diff, after, 0, 0))) <==>
                && ChangesText(es[k], base, snapshot)
                && Escapes(es[k], Rows(base), Rows(snapshot)) && !EmptyAt(es, es[k].newEnd + 1))
  {
    hide *;
    FeedbackIsApplied(es, selected, base, snapshot);
    OnlyOneIn(selected, k);
    RangesAt(es, k);
    if ChangesText(es[k], base, snapshot) {
      RejectsOnlyOne(es, selected, base, snapshot, k);
      OneSlips(es, es[k], Rows(base), Rows(snapshot));
    } else {
      RejectsOnlyOneNot(es, selected, base, snapshot, k);
      NoneSlips(es, [], Rows(base), Rows(snapshot));
    }
  }

  lemma RangesAt(es: seq<Edit>, k: nat)
    requires Ranges(es) && k < |es|
    ensures 0 <= es[k].oldStart <= es[k].oldEnd && 0 <= es[k].newStart <= es[k].newEnd
  {
  }

  lemma OnlyOneIn(selected: seq<bool>, k: nat)
    requires OnlyOne(selected, k)
    ensures k < |selected|
  {
  }

  lemma OneSlips(es: seq<Edit>, u: Edit, b: seq<string>, s: seq<string>)
    ensures AnySlips(es, [u], b, s, 0) <==> Escapes(u, b, s) && !EmptyAt(es, u.newEnd + 1)
  {
    hide Escapes, EmptyAt;
    assert Slips(es, [u], b, s, 0) <==> Escapes(u, b, s) && !EmptyAt(es, u.newEnd + 1);
  }

  // ----- what one rejected edit does to the reviewed text

  ghost function Total(es: seq<Edit>): int {
    if es == [] then 0 else es[0].Delta() + Total(es[1..])
  }

  /** A patch adds as many rows as its edits do. */
  lemma {:induction false} AlignedTotal(b: seq<string>, s: seq<string>, es: seq<Edit>, i: int, j: int)
    requires Aligned(b, s, es, i, j)
    ensures |s| - j == |b| - i + Total(es)
    decreases |es|
  {
    GapLength(b, s, es, i, j);
    if es != [] {
      AlignedIn(b, s, es, i, j);
      hide Aligned;
      AlignedTotal(b, s, es[1..], es[0].oldEnd, es[0].newEnd);
    }
  }

  lemma {:induction false} MovedTotal(us: seq<Edit>, cs: seq<Change<string>>, delta: int)
    ensures Total(Moved(us, cs, delta)) == Total(us)
    decreases |us| + |cs|
  {
    hide Before;
    if us != [] {
      if cs != [] && Before(cs[0].Extent(), us[0]) {
        MovedTotal(us, cs[1..], delta + cs[0].Delta());
      } else {
        MovedTotal(us[1..], cs, delta);
        var rest := Moved(us[1..], cs, delta);
        assert ([us[0].ShiftOld(delta).ShiftNew(delta)] + rest)[1..] == rest;
      }
    }
  }

  /** An applied edit adds to the base the rows it adds to the buffer. */
  lemma AppliedAdds(b: seq<string>, s: seq<string>, n: seq<string>, us: seq<Edit>, w: Edit)
    requires Rep(b, us, s) && Rep(s, [w], n) && Allowed(us, w)
    ensures |RebasedBase(b, us, [w], n)| == |b| + w.Delta()
  {
    hide *;
    var ms, base := Moved(us, AllowedChanges(us, [w], n), 0), RebasedBase(b, us, [w], n);
    RebaseTheorem(b, s, n, us, [w]);
    RepParts(b, us, s);
    RepParts(s, [w], n);
    AlignedTotal(b, s, us, 0, 0);
    AlignedTotal(s, n, [w], 0, 0);
    AlignedTotal(base, n, ms, 0, 0);
    MovedTotal(us, AllowedChanges(us, [w], n), 0);
    TotalOne(w);
  }

  lemma TotalOne(w: Edit)
    ensures Total([w]) == w.Delta()
  {
    assert Total([w][1..]) == 0;
  }

  /** Changes that put back what is there change nothing on the other side either. */
  lemma {:induction false} SameRebased(
      b: seq<string>, o: seq<string>, us: seq<Edit>, cs: seq<Change<string>>, i: int, j: int)
    requires Aligned(b, o, us, i, j) && Fits(cs, |o|, j) && Untouched(us, cs) && AllSame(cs, o)
    ensures 0 <= i <= |b| && Rebased(b, us, cs, i, j) == b[i..]
    decreases |us| + |cs|
  {
    hide *;
    UntouchedTails(us, cs);
    AlignedBounds(b, o, us, i, j);
    if us == [] && cs == [] {
      AtEnd(b, o, us, cs, i, j, 0);
    } else if cs != [] && (us == [] || Before(cs[0].Extent(), us[0])) {
      var c := cs[0];
      AtChange(b, o, us, cs, i, j, 0);
      AllSameHead(cs, o);
      var g := ChangeGap(b, o, us, c, i, j);
      SameInGap(b, o, us, c, i, j);
      SameRebased(b, o, us, cs[1..], c.end - j + i, c.end);
      Rejoined(b, i, c.start - j + i, c.end - j + i);
    } else {
      AtEdit(b, o, us, cs, i, j, 0);
      SameRebased(b, o, us[1..], cs, us[0].oldEnd, us[0].newEnd);
      assert b[i..us[0].oldEnd] + b[us[0].oldEnd..] == b[i..];
    }
  }

  ghost predicate AllSame(cs: seq<Change<string>>, o: seq<string>) {
    forall q :: 0 <= q < |cs| ==> cs[q].rows == Slice(o, cs[q].start, cs[q].end)
  }

  lemma AllSameHead(cs: seq<Change<string>>, o: seq<string>)
    requires AllSame(cs, o) && cs != []
    ensures AllSame(cs[1..], o) && cs[0].rows == Slice(o, cs[0].start, cs[0].end)
  {
  }

  lemma SameInGap(b: seq<string>, o: seq<string>, us: seq<Edit>, c: Change<string>, i: int, j: int)
    requires Aligned(b, o, us, i, j) && 0 <= j <= c.start <= c.end <= |o|
    requires us == [] || Before(c.Extent(), us[0])
    ensures var x, y := c.start - j + i, c.end - j + i;
            && 0 <= i <= x <= y <= |b| && Slice(b, x, y) == Slice(o, c.start, c.end)
            && Slice(b, i, x) == b[i..x] && Slice(b, x, y) == b[x..y]
  {
    hide *;
    var x, y := c.start - j + i, c.end - j + i;
    GapLength(b, o, us, i, j);
    AlignedBounds(b, o, us, i, j);
    BeforeEnds(us, c);
    AlignedForward(b, o, us, i, j, c.start - j);
    AlignedForward(b, o, us, x, c.start, c.end - c.start);
    AlignedBounds(b, o, us, y, c.end);
    SliceWithin(b, i, x);
    SliceWithin(b, x, y);
    SliceWithin(o, c.start, c.end);
  }

  lemma BeforeEnds(us: seq<Edit>, c: Change<string>)
    requires us == [] || Before(c.Extent(), us[0])
    ensures us == [] || c.end <= us[0].newStart
  {
  }

  lemma Rejoined(b: seq<string>, i: nat, x: nat, y: nat)
    requires i <= x <= y <= |b|
    ensures b[i..x] + b[x..y] + b[y..] == b[i..]
  {
  }

  lemma {:induction false} RejectsOneChange(es: seq<Edit>, selected: seq<bool>, base: string, snapshot: string, k: nat)
    requires |selected| == |es| && Ranges(es) && OnlyOne(selected, k)
    ensures var u := es[k];
            RejectChanges(es, selected, base, snapshot) ==
            [Change(RowStart(snapshot, u.newStart), RowStart(snapshot, u.newEnd),
                    SliceRows(base, u.oldStart, u.oldEnd))]
  {
    hide RejectChanges, RowStart, SliceRows;
    RejectHead(es, selected, base, snapshot);
    if k == 0 {
      NoChangesOf(es[1..], selected[1..], base, snapshot);
    } else {
      assert es[1..][k - 1] == es[k];
      RejectsOneChange(es[1..], selected[1..], base, snapshot, k - 1);
    }
  }

  lemma {:induction false} NoChangesOf(es: seq<Edit>, selected: seq<bool>, base: string, snapshot: string)
    requires |selected| == |es| && Ranges(es) && forall t :: 0 <= t < |selected| ==> !selected[t]
    ensures RejectChanges(es, selected, base, snapshot) == []
  {
    if es != [] {
      NoChangesOf(es[1..], selected[1..], base, snapshot);
    }
  }

  /** Rejecting an edit that escapes and adds no rows puts back what is there. */
  lemma SameAfterReject(es: seq<Edit>, selected: seq<bool>, base: string, snapshot: string, k: nat)
    requires |selected| == |es| && Ranges(es) && OnlyOne(selected, k)
    requires FitsIn(es[k], Rows(base), Rows(snapshot))
    requires Escapes(es[k], Rows(base), Rows(snapshot)) && es[k].Delta() == 0
    ensures AfterReject(es, selected, base, snapshot) == snapshot
  {
    hide *;
    OnlyOneIn(selected, k);
    var u := es[k];
    AfterIs(es, selected, base, snapshot);
    RejectsOneChange(es, selected, base, snapshot, k);
    EscapesInPlace(u, Rows(base), Rows(snapshot));
    SameRowsText(base, snapshot, u.oldStart, u.oldEnd, u.newStart, u.newEnd);
    SliceLength(snapshot, u.newStart, u.newEnd);
    PutBack(snapshot, RowStart(snapshot, u.newStart), RowStart(snapshot, u.newEnd));
  }

  lemma EscapesInPlace(u: Edit, b: seq<string>, s: seq<string>)
    requires FitsIn(u, b, s) && Escapes(u, b, s) && u.Delta() == 0
    ensures 0 <= u.oldStart <= u.oldEnd <= |b| && u.oldStart < |b|
    ensures 0 <= u.newStart <= u.newEnd <= |s| && u.newStart < |s|
    ensures (u.newEnd == |s| <==> u.oldEnd == |b|) && b[u.oldStart..u.oldEnd] == s[u.newStart..u.newEnd]
  {
    if u.newStart < u.newEnd {
      assert b[u.oldStart..u.oldEnd] == [b[u.oldStart]] && s[u.newStart..u.newEnd] == [s[u.newStart]];
    }
  }

  lemma PutBack(t: string, x: nat, y: nat)
    requires x <= y <= |t|
    ensures Apply(t, [Change(x, y, t[x..y])], 0) == t
  {
    hide *;
    var c := Change(x, y, t[x..y]);
    ApplyCons(t, c, [], 0);
    ApplyNothing(t, y);
    assert [c] + [] == [c];
    InThree(t, x, y);
  }

  lemma InThree(t: string, x: nat, y: nat)
    requires x <= y <= |t|
    ensures t[0..x] + t[x..y] + t[y..] == t
  {
  }

  lemma ApplyNothing(t: string, y: nat)
    requires y <= |t|
    ensures Apply(t, [], y) == t[y..]
  {
  }

  /** A reject that changes no text is of an edit that adds no rows. */
  lemma NoTextNoRows(u: Edit, base: string, snapshot: string)
    requires FitsIn(u, Rows(base), Rows(snapshot)) && !ChangesText(u, base, snapshot)
    ensures u.Delta() == 0
  {
    hide Rows, RowStart, SliceRows;
    EmptySlice(base, u.oldStart, u.oldEnd);
    SliceLength(snapshot, u.newStart, u.newEnd);
    EmptySlice(snapshot, u.newStart, u.newEnd);
  }

  lemma EmptySlice(t: string, a: nat, b: nat)
    requires a <= b <= |Rows(t)| && a < |Rows(t)| && SliceRows(t, a, b) == ""
    ensures b - a == if b == |Rows(t)| then 1 else 0
  {
    hide Rows, RowStart, SliceRows, Lines, Join;
    SliceOfRows(t, a, b);
    LinesUnfold(Rows(t)[a..b]);
    if b == |Rows(t)| && b - a > 1 {
      JoinUnfold(Rows(t)[a..]);
      assert false;
    }
  }

  /** The row edit the reject of one edit comes back as: it takes away what the edit added. */
  lemma OneComesBack(es: seq<Edit>, selected: seq<bool>, base: string, snapshot: string, k: nat)
      returns (w: Edit)
    requires Rep(Rows(base), es, Rows(snapshot)) && |selected| == |es| && OnlyOne(selected, k)
    requires Ranges(es) && ChangesText(es[k], base, snapshot)
    ensures var diff, after := RejectDiff(es, selected, base, snapshot), AfterReject(es, selected, base, snapshot);
            && UnitDiff(snapshot, diff, after)
            && Merge(RowEdits(snapshot, diff, after, 0, 0)) == [w] && Rep(Rows(snapshot), [w], Rows(after))
            && w.Delta() == -es[k].Delta()
  {
    hide *;
    var at := RejectIsDiff(es, selected, base, snapshot);
    var diff, after := RejectDiff(es, selected, base, snapshot), AfterReject(es, selected, base, snapshot);
    OnlyOneIn(selected, k);
    RejectsOnlyOne(es, selected, base, snapshot, k);
    CutsCount(diff, [es[k]], at, base, snapshot, after);
    CutsAt(diff, [es[k]], at, base, snapshot, after, 0);
    UnitDiffAligned(snapshot, diff, after);
    RowEditsAt(snapshot, diff, after, 0, 0, 0);
    MergeOne(RowEdits(snapshot, diff, after, 0, 0));
    RowDiffIsRep(snapshot, diff, after);
    w := RowEditOf(diff[0], snapshot, after);
    assert RowEdits(snapshot, diff, after, 0, 0) == [w];
    CutDelta(diff[0], es[k], at[0], base, snapshot, after);
  }

  lemma CutDelta(e: Edit, u: Edit, c: nat, base: string, snapshot: string, after: string)
    requires CutAt(e, u, c, base, snapshot, after)
    ensures e.Within(snapshot, after) && RowEditOf(e, snapshot, after).Delta() == -u.Delta()
  {
    hide Rows, RowEditOf, RowCut, Around;
    AroundMeans(u, Rows(base), Rows(after), c);
    ComesBackAs(snapshot, after, u.newStart, u.newEnd, c, c + u.oldEnd - u.oldStart);
  }

  /** The reject of one edit changes the reviewed text if and only if the edit escapes, no
      unreviewed edit without rows stands where it comes back, and it adds or takes rows. */
  lemma OneRejectedChangesBase(es: seq<Edit>, selected: seq<bool>, base: string, snapshot: string, k: nat)
    requires Rep(Rows(base), es, Rows(snapshot)) && |selected| == |es| && OnlyOne(selected, k)
    ensures Ranges(es)
    ensures var diff, after := RejectDiff(es, selected, base, snapshot), AfterReject(es, selected, base, snapshot);
            && UnitDiff(snapshot, diff, after)
            && (RebasedBase(Rows(base), es, Merge(RowEdits(snapshot, diff, after, 0, 0)), Rows(after))
                != Rows(base) <==>
                && Escapes(es[k], Rows(base), Rows(snapshot)) && !EmptyAt(es, es[k].newEnd + 1)
                && es[k].Delta() != 0)
  {
    hide *;
    OnlyOneIn(selected, k);
    var b, s, u := Rows(base), Rows(snapshot), es[k];
    OneRejected(es, selected, base, snapshot, k);
    RangesAt(es, k);
    RepEdit(b, s, es, k);
    FitsInIs(u, b, s);
    RepParts(b, es, s);
    var diff, after := RejectDiff(es, selected, base, snapshot), AfterReject(es, selected, base, snapshot);
    UnitDiffAligned(snapshot, diff, after);
    var ws := Merge(RowEdits(snapshot, diff, after, 0, 0));
    if !AnyAllowed(es, ws) {
      BaseStays(b, s, es, ws, Rows(after));
      if !ChangesText(u, base, snapshot) {
        NoTextNoRows(u, base, snapshot);
      }
    } else {
      var w := OneComesBack(es, selected, base, snapshot, k);
      AnyAllowedOne(es, w);
      if u.Delta() == 0 {
        SameAfterReject(es, selected, base, snapshot, k);
        SameBase(b, s, es, w);
      } else {
        AppliedAdds(b, s, Rows(after), es, w);
      }
    }
  }

  lemma FitsInIs(u: Edit, b: seq<string>, s: seq<string>)
    requires 0 <= u.oldStart <= u.oldEnd <= |b| && u.oldStart < |b|
    requires 0 <= u.newStart <= u.newEnd <= |s| && u.newStart < |s| && (u.oldEnd == |b| <==> u.newEnd == |s|)
    ensures FitsIn(u, b, s)
  {
  }

  lemma AnyAllowedOne(es: seq<Edit>, w: Edit)
    requires AnyAllowed(es, [w])
    ensures Allowed(es, w)
  {
    hide Allowed;
  }

  /** An edit between equal rows that adds none leaves the base as it is. */
  lemma SameBase(b: seq<string>, s: seq<string>, us: seq<Edit>, w: Edit)
    requires Rep(b, us, s) && Rep(s, [w], s) && w.Delta() == 0
    ensures RebasedBase(b, us, [w], s) == b
  {
    hide *;
    var cs := AllowedChanges(us, [w], s);
    AllowedReady(b, s, s, us, [w]);
    BaseNames(b, s, s, us, [w]);
    SamePlace(s, us, w);
    SameRebased(b, s, us, cs, 0, 0);
    assert b[0..] == b;
  }

  lemma SamePlace(s: seq<string>, us: seq<Edit>, w: Edit)
    requires Rep(s, [w], s) && w.Delta() == 0
    ensures AllSame(AllowedChanges(us, [w], s), s)
  {
    GapLength(s, s, [w], 0, 0);
    assert w.newStart == w.oldStart && w.newEnd == w.oldEnd;
    assert AllowedChanges(us, [w][1..], s) == [];
    hide Allowed, Rep;
  }

  // ----- trimmed hunks

  /** The edit cannot be cut shorter at either end, nor moved down: it starts on rows that differ,
      and where it has rows on both sides they end on rows that differ. */
  predicate Trimmed(u: Edit, b: seq<string>, s: seq<string>) {
    && (0 <= u.oldStart < |b| && 0 <= u.newStart < |s| ==> b[u.oldStart] != s[u.newStart])
    && (0 <= u.oldStart < u.oldEnd <= |b| && 0 <= u.newStart < u.newEnd <= |s| ==>
          b[u.oldEnd - 1] != s[u.newEnd - 1])
  }

  lemma TrimmedNeverEscapes(u: Edit, b: seq<string>, s: seq<string>)
    requires FitsIn(u, b, s) && Trimmed(u, b, s)
    ensures !Escapes(u, b, s)
  {
  }

  /** Rejecting any selection of trimmed edits leaves the reviewed text alone. */
  lemma TrimmedLeavesBase(es: seq<Edit>, selected: seq<bool>, base: string, snapshot: string)
    requires Rep(Rows(base), es, Rows(snapshot)) && |selected| == |es|
    requires forall k :: 0 <= k < |es| && selected[k] ==> Trimmed(es[k], Rows(base), Rows(snapshot))
    ensures Ranges(es)
    ensures var diff, after := RejectDiff(es, selected, base, snapshot), AfterReject(es, selected, base, snapshot);
            && UnitDiff(snapshot, diff, after)
            && RebasedBase(Rows(base), es, Merge(RowEdits(snapshot, diff, after, 0, 0)), Rows(after))
               == Rows(base)
  {
    hide *;
    var b, s := Rows(base), Rows(snapshot);
    RejectsComeBack(es, selected, base, snapshot);
    var diff, after := RejectDiff(es, selected, base, snapshot), AfterReject(es, selected, base, snapshot);
    var rs := Rejects(es, selected, base, snapshot);
    UnitDiffAligned(snapshot, diff, after);
    AllBackFits(RowEdits(snapshot, diff, after, 0, 0), rs, b, s);
    forall p | 0 <= p < |rs|
      ensures !Escapes(rs[p], b, s)
    {
      FitsAt(rs, b, s, p);
      var k := RejectsSource(es, selected, base, snapshot, p);
      TrimmedNeverEscapes(rs[p], b, s);
    }
    NoneSlips(es, rs, b, s);
    RejectLeavesBase(es, selected, base, snapshot);
  }

  lemma NoneSlips(es: seq<Edit>, rs: seq<Edit>, b: seq<string>, s: seq<string>)
    requires forall p :: 0 <= p < |rs| ==> !Escapes(rs[p], b, s)
    ensures !AnySlips(es, rs, b, s, 0)
  {
    hide Escapes, EmptyAt, Meets;
  }

  /** A rejected edit is a selected one. */
  lemma {:induction false} RejectsSource(
      es: seq<Edit>, selected: seq<bool>, base: string, snapshot: string, p: nat) returns (k: nat)
    requires |selected| == |es| && Ranges(es) && p < |Rejects(es, selected, base, snapshot)|
    ensures k < |es| && selected[k] && es[k] == Rejects(es, selected, base, snapshot)[p]
  {
    hide ChangesText;
    if selected[0] && ChangesText(es[0], base, snapshot) {
      if p == 0 {
        k := 0;
      } else {
        k := RejectsSource(es[1..], selected[1..], base, snapshot, p - 1);
        k := k + 1;
      }
    } else {
      k := RejectsSource(es[1..], selected[1..], base, snapshot, p);
      k := k + 1;
    }
  }

  // ----- hunks that escape

  lemma HunkRows()
    ensures Rows("b\n\n\n\n") == ["b", "", "", "", ""]
    ensures Rows("a\nb\nb\n\n\n") == ["a", "b", "b", "", "", ""]
  {
    hide Rows;
    var b, s := ["b", "", "", "", ""], ["a", "b", "b", "", "", ""];
    assert Join(b) == "b\n\n\n\n" by {
      assert Join(b) == "b" + "\n" + ("" + "\n" + ("" + "\n" + ("" + "\n" + "")));
    }
    RowsOfJoin(b);
    assert Join(s) == "a\nb\nb\n\n\n" by {
      assert Join(s) == "a" + "\n" + ("b" + "\n" + ("b" + "\n" + ("" + "\n" + ("" + "\n" + ""))));
    }
    RowsOfJoin(s);
  }

  lemma HunkPatch()
    ensures Rep(["b", "", "", "", ""], [Edit(0, 0, 0, 2), Edit(2, 3, 4, 4)], ["a", "b", "b", "", "", ""])
  {
    var b, s := ["b", "", "", "", ""], ["a", "b", "b", "", "", ""];
    var u, v := Edit(0, 0, 0, 2), Edit(2, 3, 4, 4);
    assert [u, v][1..] == [v] && [v][1..] == [];
    assert b[3..] == ["", ""] == s[4..];
    assert Aligned(b, s, [], 3, 4);
    assert b[0..2] == ["b", ""] == s[2..4];
    assert Aligned(b, s, [v], 0, 2);
    assert b[0..0] == s[0..0];
    assert SeparatedFrom([], 4) && SeparatedFrom([v], 2);
  }

  /** Two hunks a git diff without context lines reports: rows `a`, `b` put in front, and the first
      of three blank rows taken out.  Widened, the second starts on blank rows, and its reject is
      applied to the reviewed text, which so gains a blank row of its own. */
  lemma GitHunkEscapes()
    ensures var base, snapshot := "b\n\n\n\n", "a\nb\nb\n\n\n";
            var es, selected := [Edit(0, 0, 0, 2), Edit(2, 3, 4, 4)], [false, true];
            && RowEditOf(RowCut(base, snapshot, 0, 0, 0, 2), base, snapshot) == es[0]
            && RowEditOf(RowCut(base, snapshot, 1, 2, 3, 3), base, snapshot) == es[1]
            && Rep(Rows(base), es, Rows(snapshot)) && Ranges(es)
            && var diff, after := RejectDiff(es, selected, base, snapshot),
                                  AfterReject(es, selected, base, snapshot);
               && UnitDiff(snapshot, diff, after)
               && Merge(RowEdits(snapshot, diff, after, 0, 0)) == [Edit(5, 5, 5, 6)]
               && Allowed(es, Edit(5, 5, 5, 6))
               && RebasedBase(Rows(base), es, [Edit(5, 5, 5, 6)], Rows(after)) == Rows(base) + [""]
  {
    hide *;
    var base, snapshot := "b\n\n\n\n", "a\nb\nb\n\n\n";
    var es, selected := [Edit(0, 0, 0, 2), Edit(2, 3, 4, 4)], [false, true];
    HunkRows();
    HunkPatch();
    HunkBlanks();
    ComesBackAs(base, snapshot, 0, 0, 0, 2);
    ComesBackAs(base, snapshot, 1, 2, 3, 3);
    HunkComesBack(es, selected, base, snapshot);
    HunkRebased();
  }

  lemma HunkBlanks()
    ensures var b, s := ["b", "", "", "", ""], ["a", "b", "b", "", "", ""];
            && !Blank(b, 0) && Blank(b, 1) && Blank(s, 3) && StartsBlank(Edit(2, 3, 4, 4), b, s)
    ensures LastPoint(0, 5) == 0 && LastPoint(2, 6) == 2 && LastPoint(2, 5) == 2 && LastPoint(3, 6) == 3
    ensures LastPoint(4, 6) == 4
  {
  }

  lemma HunkComesBack(es: seq<Edit>, selected: seq<bool>, base: string, snapshot: string)
    requires base == "b\n\n\n\n" && snapshot == "a\nb\nb\n\n\n"
    requires es == [Edit(0, 0, 0, 2), Edit(2, 3, 4, 4)] && selected == [false, true]
    requires Rep(Rows(base), es, Rows(snapshot))
    ensures Ranges(es)
    ensures var diff, after := RejectDiff(es, selected, base, snapshot), AfterReject(es, selected, base, snapshot);
            && UnitDiff(snapshot, diff, after) && Rows(after) == ["a", "b", "b", "", "", "", ""]
            && Merge(RowEdits(snapshot, diff, after, 0, 0)) == [Edit(5, 5, 5, 6)]
  {
    hide *;
    var u, s := es[1], Rows(snapshot);
    HunkRows();
    HunkBlanks();
    RejectTheorem(es, selected, base, snapshot);
    AfterIs(es, selected, base, snapshot);
    RejectsComeBack(es, selected, base, snapshot);
    HunkChanges(u, base, snapshot);
    HunkSelected(selected);
    RejectsOnlyOne(es, selected, base, snapshot, 1);
    var diff, after := RejectDiff(es, selected, base, snapshot), AfterReject(es, selected, base, snapshot);
    UnitDiffAligned(snapshot, diff, after);
    var ws := RowEdits(snapshot, diff, after, 0, 0);
    HunkAfter();
    AllBackFits(ws, [u], Rows(base), s);
    BackAt(ws, [u], Rows(base), s, 0);
    BackAtBlank(ws[0], u, Rows(base), s);
    MergeAlone(ws[0], []);
    MergeOne(ws);
    RowDiffIsRep(snapshot, diff, after);
    OneAtFive(s, ws, Rows(after));
  }

  lemma MergeOne(ws: seq<Edit>)
    requires |ws| == 1
    ensures Merge(ws) == ws
  {
  }

  lemma HunkSelected(selected: seq<bool>)
    requires selected == [false, true]
    ensures OnlyOne(selected, 1)
  {
  }

  lemma BackAtBlank(w: Edit, u: Edit, b: seq<string>, s: seq<string>)
    requires BackAs(w, u, b, s) && StartsBlank(u, b, s)
    ensures w.oldStart == u.newStart + 1 && w.oldEnd == LastPoint(u.newEnd, |s|) + 1
  {
  }

  lemma OneAtFive(s: seq<string>, ws: seq<Edit>, r: seq<string>)
    requires Rep(s, ws, r) && |ws| == 1 && ws[0].oldStart == ws[0].oldEnd == 5 && |s| == 6 && |r| == 7
    ensures ws == [Edit(5, 5, 5, 6)]
  {
    GapLength(s, r, ws, 0, 0);
    assert ws[1..] == [];
    GapLength(s, r, ws[1..], 5, ws[0].newEnd);
  }

  lemma HunkChanges(u: Edit, base: string, snapshot: string)
    requires u == Edit(2, 3, 4, 4) && Rows(base) == ["b", "", "", "", ""]
    ensures ChangesText(u, base, snapshot)
  {
    hide Rows, RowStart, SliceRows;
    SliceOfRows(base, 2, 3);
    assert Rows(base)[2..3] == [""];
    assert Lines([""]) == "" + "\n" + "";
  }

  lemma HunkAfter()
    ensures var b, s := ["b", "", "", "", ""], ["a", "b", "b", "", "", ""];
            var es := [Edit(0, 0, 0, 2), Edit(2, 3, 4, 4)];
            Aligned(b, s, es, 0, 0) && Mid(b, s, es, Not([false, true]), 0, 0) == ["a", "b", "b", "", "", "", ""]
  {
    var b, s := ["b", "", "", "", ""], ["a", "b", "b", "", "", ""];
    var u, v := Edit(0, 0, 0, 2), Edit(2, 3, 4, 4);
    HunkPatch();
    var mask := Not([false, true]);
    assert mask == [true, false] && mask[1..] == [false] && [false][1..] == [];
    assert [u, v][1..] == [v] && [v][1..] == [];
    RepParts(b, [u, v], s);
    hide Rep, Not;
    assert Mid(b, s, [], [], 3, 4) == b[3..];
    assert Mid(b, s, [v], [false], 0, 2) == b[0..2] + b[2..3] + b[3..];
    assert Mid(b, s, [u, v], mask, 0, 0) == b[0..0] + s[0..2] + (b[0..2] + b[2..3] + b[3..]);
    HunkPieces();
  }

  lemma HunkPieces()
    ensures var b, s := ["b", "", "", "", ""], ["a", "b", "b", "", "", ""];
            b[0..0] + s[0..2] + (b[0..2] + b[2..3] + b[3..]) == ["a", "b", "b", "", "", "", ""]
  {
    var b, s := ["b", "", "", "", ""], ["a", "b", "b", "", "", ""];
    assert b[0..0] == [] && s[0..2] == ["a", "b"];
    assert b[0..2] == ["b", ""] && b[2..3] == [""] && b[3..] == ["", ""];
  }

  lemma HunkRebased()
    ensures var b, r := ["b", "", "", "", ""], ["a", "b", "b", "", "", "", ""];
            var es := [Edit(0, 0, 0, 2), Edit(2, 3, 4, 4)];
            Allowed(es, Edit(5, 5, 5, 6)) && RebasedBase(b, es, [Edit(5, 5, 5, 6)], r) == b + [""]
  {
    var b, r := ["b", "", "", "", ""], ["a", "b", "b", "", "", "", ""];
    var u, v, w, c := Edit(0, 0, 0, 2), Edit(2, 3, 4, 4), Edit(5, 5, 5, 6), Change(5, 5, [""]);
    assert Allowed([u, v], w);
    assert AllowedChanges([u, v], [w], r) == [c] by {
      assert [w][1..] == [] && AllowedChanges([u, v], [], r) == [];
      assert Slice(r, 5, 6) == [""];
    }
    assert [u, v][1..] == [v] && [v][1..] == [] && [c][1..] == [];
    assert Rebased(b, [], [], 4, 5) == b[4..];
    assert Rebased(b, [], [c], 3, 4) == b[3..4] + [""] + b[4..];
    assert Rebased(b, [v], [c], 0, 2) == b[0..3] + Rebased(b, [], [c], 3, 4);
    assert Rebased(b, [u, v], [c], 0, 0) == b[0..0] + Rebased(b, [v], [c], 0, 2);
  }
}

/** From edits between positions in a text to edits between its rows.

    `PointToRowEdit` is the engine's rule for widening one edit to whole rows, and
    `DiffSnapshots` merges the widened edits that meet.  The main result, `RowDiffIsRep`, is
    that for every list of separated edits between two texts the rows come out as a
    represented patch. */
module RowDiff {
  import opened Texts
  import opened Patches

  datatype Point = Point(row: nat, column: nat)

  datatype PointEdit = PointEdit(oldStart: Point, oldEnd: Point, newStart: Point, newEnd: Point)

  // ----- positions

  /** The row an offset lies on. */
  function RowAt(t: string, offset: nat): (row: nat)
    requires offset <= |t|
  {
    |Rows(t[..offset])| - 1
  }

  /** How far into its row an offset lies. */
  function ColumnAt(t: string, offset: nat): (column: nat)
    requires offset <= |t|
  {
    |Rows(t[..offset])[RowAt(t, offset)]|
  }

  function OffsetToPoint(t: string, offset: nat): Point
    requires offset <= |t|
  {
    Point(RowAt(t, offset), ColumnAt(t, offset))
  }

  function MaxPoint(t: string): Point {
    OffsetToPoint(t, |t|)
  }

  function PointToOffset(t: string, p: Point): (offset: nat)
    ensures offset <= |t|
  {
    var max := MaxPoint(t);
    if p.row > max.row || (p.row == max.row && p.column >= max.column) then |t|
    else
      var offset := RowStart(t, p.row) + p.column;
      if offset > |t| then |t| else offset
  }

  /** The length of a row, its newline not counted; of the last row for a row past it. */
  function LineLen(t: string, row: nat): nat {
    if row < |Rows(t)| then |Rows(t)[row]| else |Rows(t)[|Rows(t)| - 1]|
  }

  function CharIsNewline(t: string, offset: nat): bool {
    offset < |t| && t[offset] == '\n'
  }

  // ----- the rows of a concatenation

  /** Two row lists glued: the last row of one and the first of the other become one row. */
  function Glue(rs: seq<string>, ss: seq<string>): seq<string>
    requires rs != [] && ss != []
  {
    rs[..|rs| - 1] + [rs[|rs| - 1] + ss[0]] + ss[1..]
  }

  lemma GlueAfter(r: string, rs: seq<string>, ss: seq<string>)
    requires rs != [] && ss != []
    ensures Glue([r] + rs, ss) == [r] + Glue(rs, ss)
  {
    assert ([r] + rs)[..|rs|] == [r] + rs[..|rs| - 1];
  }

  lemma {:induction false} RowsOfConcat(a: string, b: string)
    ensures Rows(a + b) == Glue(Rows(a), Rows(b))
    decreases |a|
  {
    hide *;
    var k := FirstNewline(a);
    RowsUnfold(a);
    if k == |a| {
      assert a[..k] == a;
      RowsOfRowAndText(a, b);
      GlueOne(a, Rows(b));
    } else {
      var a' := a[k + 1..];
      RowsOfConcat(a', b);
      CutAtNewline(a, k);
      assert a[..k] + "\n" + a' + b == a[..k] + "\n" + (a' + b);
      RowsOfRowAndMore(a[..k], a' + b);
      GlueAfter(a[..k], Rows(a'), Rows(b));
    }
  }

  lemma GlueOne(r: string, ss: seq<string>)
    requires ss != []
    ensures Glue([r], ss) == [r + ss[0]] + ss[1..]
  {
  }

  lemma RowsOfRowAndText(r: string, b: string)
    requires '\n' !in r
    ensures Rows(r + b) == [r + Rows(b)[0]] + Rows(b)[1..]
  {
    hide *;
    var k := FirstNewline(b);
    FirstNewlineAfter(r, b);
    RowsUnfold(b);
    RowsUnfold(r + b);
    if k < |b| {
      assert (r + b)[..|r| + k] == r + b[..k];
      assert (r + b)[|r| + k + 1..] == b[k + 1..];
    }
  }

  /** A row met by the middle of three row lists glued together. */
  lemma GlueInside(rs: seq<string>, ss: seq<string>, ts: seq<string>, k: nat)
    requires rs != [] && ts != [] && k < |ss|
    ensures Glue(Glue(rs, ss), ts)[|rs| - 1 + k] ==
              (if k == 0 then rs[|rs| - 1] else "") + ss[k] + (if k == |ss| - 1 then ts[0] else "")
  {
    assert Glue(rs, ss)[|rs| - 1 + k] == (if k == 0 then rs[|rs| - 1] else "") + ss[k];
  }

  lemma FirstRowEmpty(z: string)
    requires z == "" || z[0] == '\n'
    ensures Rows(z)[0] == ""
    ensures z != "" ==> |Rows(z)| >= 2
  {
  }

  /** A text that stops right after a newline, and only such a text, ends in an empty row. */
  lemma ColumnZero(t: string, offset: nat)
    requires 0 < offset <= |t| && ColumnAt(t, offset) == 0
    ensures t[offset - 1] == '\n'
  {
    var a := t[..offset - 1];
    assert t[..offset] == a + [t[offset - 1]];
    RowsOfConcat(a, [t[offset - 1]]);
  }

  lemma EndsInNewline(g: string)
    requires g != "" && g[|g| - 1] == '\n'
    ensures |Rows(g)| >= 2
  {
    assert g == g[..|g| - 1] + ['\n'];
    RowsOfConcat(g[..|g| - 1], ['\n']);
  }

  /** Converting to a point and back is the identity. */
  lemma PointRoundTrip(t: string, offset: nat)
    requires offset <= |t|
    ensures PointToOffset(t, OffsetToPoint(t, offset)) == offset
  {
    hide Rows, RowStart, Lines;
    var a, b := t[..offset], t[offset..];
    var p := OffsetToPoint(t, offset);
    assert t == a + b && t[..|t|] == t;
    RowsOfConcat(a, b);
    PointOffsetIs(t, offset);
    if p.row == MaxPoint(t).row && p.column >= MaxPoint(t).column {
      assert |Rows(b)| == 1;
      JoinOfRows(b);
    }
  }

  /** A position lies as far into its row as its column says. */
  lemma PointOffsetIs(t: string, offset: nat)
    requires offset <= |t|
    ensures offset == RowStart(t, RowAt(t, offset)) + ColumnAt(t, offset)
  {
    hide Rows, RowStart, Lines, Join;
    var a, b, row := t[..offset], t[offset..], RowAt(t, offset);
    assert t == a + b;
    RowsOfConcat(a, b);
    var rs := Rows(a);
    assert Rows(t)[..row] == rs[..row];
    RowStartIsLineLength(t, row);
    JoinOfRows(a);
    assert rs == rs[..row] + [rs[row]];
    JoinOfConcat(rs[..row], [rs[row]]);
    JoinOne(rs[row]);
  }

  // ----- widening one edit

  function ToPoints(e: Edit, o: string, n: string): PointEdit
    requires e.Within(o, n)
  {
    PointEdit(OffsetToPoint(o, e.oldStart), OffsetToPoint(o, e.oldEnd),
              OffsetToPoint(n, e.newStart), OffsetToPoint(n, e.newEnd))
  }

  function PointToRowEdit(e: PointEdit, oldText: string, newText: string): Edit {
    if e.oldStart.column == LineLen(oldText, e.oldStart.row)
       && CharIsNewline(newText, PointToOffset(newText, e.newStart))
       && e.oldStart != MaxPoint(oldText)
    then Edit(e.oldStart.row + 1, e.oldEnd.row + 1, e.newStart.row + 1, e.newEnd.row + 1)
    else if e.oldStart.column == 0 && e.oldEnd.column == 0 && e.newEnd.column == 0
    then Edit(e.oldStart.row, e.oldEnd.row, e.newStart.row, e.newEnd.row)
    else Edit(e.oldStart.row, e.oldEnd.row + 1, e.newStart.row, e.newEnd.row + 1)
  }

  ghost function RowEditOf(e: Edit, o: string, n: string): Edit
    requires e.Within(o, n)
  {
    PointToRowEdit(ToPoints(e, o, n), o, n)
  }

  /** Row `p` is where an edit ending at `i` may end: the row after, or this row, left `open`,
      when nothing of it has been passed. */
  ghost predicate EndRow(t: string, i: int, p: int, open: bool) {
    0 <= i <= |t| && if open then p == RowAt(t, i) && ColumnAt(t, i) == 0
                     else p == RowAt(t, i) + 1
  }

  /** Row `p` is where an edit starting at `i` may start: this row, or the one `past` it when
      there is a newline here. */
  ghost predicate StartRow(t: string, i: int, p: int, past: bool) {
    0 <= i <= |t| && if past then p == RowAt(t, i) + 1 && CharIsNewline(t, i)
                     else p == RowAt(t, i)
  }

  ghost predicate EndRows(o: string, n: string, i: int, j: int, p: int, q: int) {
    || (EndRow(o, i, p, false) && EndRow(n, j, q, false))
    || (EndRow(o, i, p, true) && EndRow(n, j, q, true))
  }

  ghost predicate StartRows(o: string, n: string, i: int, j: int, p: int, q: int) {
    || (StartRow(o, i, p, false) && StartRow(n, j, q, false))
    || (StartRow(o, i, p, true) && StartRow(n, j, q, true))
  }

  lemma AtLineEnd(t: string, offset: nat)
    requires offset <= |t| && ColumnAt(t, offset) == LineLen(t, RowAt(t, offset))
    requires OffsetToPoint(t, offset) != MaxPoint(t)
    ensures CharIsNewline(t, offset)
  {
    hide Rows;
    var a, b := t[..offset], t[offset..];
    assert t == a + b && t[..|t|] == t;
    RowsOfConcat(a, b);
    GlueAt(Rows(a), Rows(b));
    EmptyFirstRow(b);
  }

  lemma GlueAt(rs: seq<string>, ss: seq<string>)
    requires rs != [] && ss != []
    ensures |Glue(rs, ss)| == |rs| + |ss| - 1 && Glue(rs, ss)[|rs| - 1] == rs[|rs| - 1] + ss[0]
  {
  }

  lemma EmptyFirstRow(b: string)
    ensures Rows(b)[0] == "" && b != "" ==> b[0] == '\n'
    ensures b == "" ==> Rows(b) == [""]
  {
    hide Rows, FirstNewline;
    RowsUnfold(b);
    assert b != "" && FirstNewline(b) < |b| ==> |b[..FirstNewline(b)]| == FirstNewline(b);
  }

  lemma RowAtIsMonotone(t: string, x: nat, y: nat)
    requires x <= y <= |t|
    ensures RowAt(t, x) <= RowAt(t, y) < |Rows(t)|
  {
    assert t[..y] == t[..x] + t[x..y];
    RowsOfConcat(t[..x], t[x..y]);
    assert t == t[..y] + t[y..];
    RowsOfConcat(t[..y], t[y..]);
  }

  lemma NewlineHasRowAfter(t: string, x: nat)
    requires CharIsNewline(t, x)
    ensures RowAt(t, x) + 1 < |Rows(t)|
  {
    assert t == t[..x] + t[x..];
    RowsOfConcat(t[..x], t[x..]);
    FirstRowEmpty(t[x..]);
  }

  /** What widening promises: the rows it starts and ends on fit the positions on both sides,
      and it starts on a row that exists. */
  lemma RowEditShape(e: Edit, o: string, n: string)
    requires e.Within(o, n)
    ensures var r := RowEditOf(e, o, n);
            && StartRows(o, n, e.oldStart, e.newStart, r.oldStart, r.newStart)
            && EndRows(o, n, e.oldEnd, e.newEnd, r.oldEnd, r.newEnd)
            && r.Within(Rows(o), Rows(n))
            && r.oldStart < |Rows(o)| && r.newStart < |Rows(n)|
  {
    var p := ToPoints(e, o, n);
    RowAtIsMonotone(o, e.oldStart, e.oldEnd);
    RowAtIsMonotone(n, e.newStart, e.newEnd);
    PointRoundTrip(n, e.newStart);
    if p.oldStart.column == LineLen(o, p.oldStart.row)
       && CharIsNewline(n, e.newStart) && p.oldStart != MaxPoint(o)
    {
      AtLineEnd(o, e.oldStart);
      NewlineHasRowAfter(o, e.oldStart);
      NewlineHasRowAfter(n, e.newStart);
    }
  }

  /** The position is at the start of a row. */
  predicate StartsRow(t: string, offset: nat)
    requires offset <= |t|
  {
    offset == 0 || t[offset - 1] == '\n'
  }

  lemma ColumnZeroIs(t: string, offset: nat)
    requires offset <= |t|
    ensures ColumnAt(t, offset) == 0 <==> StartsRow(t, offset)
  {
    if offset > 0 {
      hide Rows;
      var a := t[..offset - 1];
      assert t[..offset] == a + [t[offset - 1]];
      if t[offset - 1] == '\n' {
        RowsAfterNewline(a);
      } else if ColumnAt(t, offset) == 0 {
        ColumnZero(t, offset);
      }
    } else {
      RowsOfOneRow("");
    }
  }

  /** A newline is what a position at the end of its row, and not of the text, stands before. */
  lemma LineEndIs(t: string, offset: nat)
    requires offset <= |t|
    ensures ColumnAt(t, offset) == LineLen(t, RowAt(t, offset)) && OffsetToPoint(t, offset) != MaxPoint(t)
            <==> CharIsNewline(t, offset)
  {
    hide Rows, PointToOffset;
    if CharIsNewline(t, offset) {
      PointRoundTrip(t, offset);
      PointRoundTrip(t, |t|);
      NewlineHasRowAfter(t, offset);
      assert t == t[..offset] + t[offset..];
      RowsOfConcat(t[..offset], t[offset..]);
      FirstRowEmptyIf(t, offset);
      GlueAtEnd(Rows(t[..offset]), Rows(t[offset..]));
    } else if ColumnAt(t, offset) == LineLen(t, RowAt(t, offset)) && OffsetToPoint(t, offset) != MaxPoint(t) {
      AtLineEnd(t, offset);
    }
  }

  lemma GlueAtEnd(rs: seq<string>, ss: seq<string>)
    requires rs != [] && ss != [] && ss[0] == ""
    ensures Glue(rs, ss)[|rs| - 1] == rs[|rs| - 1]
  {
    assert rs[|rs| - 1] + "" == rs[|rs| - 1];
  }

  /** The widening rule on the texts themselves.  An edit that starts before a newline in both texts
      leaves that row alone and starts on the next; any other starts on the row it is in.  It ends
      after the row it ends in, unless it starts at the start of a row and ends at the start of one in
      both texts: then it has entered no other row. */
  lemma RowEditExactly(e: Edit, o: string, n: string)
    requires e.Within(o, n)
    ensures var r := RowEditOf(e, o, n);
            var past := CharIsNewline(o, e.oldStart) && CharIsNewline(n, e.newStart);
            var open := !past && StartsRow(o, e.oldStart) && StartsRow(o, e.oldEnd) && StartsRow(n, e.newEnd);
            && r.oldStart == RowAt(o, e.oldStart) + (if past then 1 else 0)
            && r.newStart == RowAt(n, e.newStart) + (if past then 1 else 0)
            && r.oldEnd == RowAt(o, e.oldEnd) + (if open then 0 else 1)
            && r.newEnd == RowAt(n, e.newEnd) + (if open then 0 else 1)
  {
    hide Rows, RowAt, ColumnAt, LineLen, PointToOffset;
    LineEndIs(o, e.oldStart);
    PointRoundTrip(n, e.newStart);
    ColumnZeroIs(o, e.oldStart);
    ColumnZeroIs(o, e.oldEnd);
    ColumnZeroIs(n, e.newEnd);
  }

  /** Only an edit that changes nothing widens to one that does not either. */
  lemma RowEditNotEmpty(e: Edit, o: string, n: string)
    requires e.Within(o, n) && RowEditOf(e, o, n).IsEmpty()
    ensures e.IsEmpty()
  {
    RowAtIsMonotone(o, e.oldStart, e.oldEnd);
    PointRoundTrip(n, e.newStart);
    SameRow(o, e.oldStart, e.oldEnd);
    SameRow(n, e.newStart, e.newEnd);
    var p := ToPoints(e, o, n);
    if p.oldStart.column == LineLen(o, p.oldStart.row)
       && CharIsNewline(n, e.newStart) && p.oldStart != MaxPoint(o)
    {
      AtLineEnd(o, e.oldStart);
    }
  }

  /** Two positions on one row have no newline between them. */
  lemma SameRow(t: string, x: nat, y: nat)
    requires x <= y <= |t|
    ensures RowAt(t, x) == RowAt(t, y) && x < y ==> !CharIsNewline(t, x)
    ensures RowAt(t, x) == RowAt(t, y) ==> ColumnAt(t, y) == ColumnAt(t, x) + (y - x)
  {
    var g := t[x..y];
    assert t[..y] == t[..x] + g;
    RowsOfConcat(t[..x], g);
    if RowAt(t, x) == RowAt(t, y) {
      assert |Rows(g)| == 1;
      JoinOfRows(g);
      RowsHaveNoNewlines(g);
      if x < y {
        assert g[0] == t[x];
      }
    }
  }

  // ----- gaps

  /** The rows of a stretch both texts share read the same in both, from where an edit before
      it may end to where an edit after it may start. */
  lemma GapRows(o: string, n: string, i: int, j: int, len: int, p: int, q: int, p': int, q': int)
    requires 0 <= len && 0 <= i <= i + len <= |o| && 0 <= j <= j + len <= |n|
    requires o[i..i + len] == n[j..j + len]
    requires EndRows(o, n, i, j, p, q)
    requires StartRows(o, n, i + len, j + len, p', q')
    ensures p' - p == q' - q
    ensures p <= p' ==> 0 <= p <= p' <= |Rows(o)| && 0 <= q <= q' <= |Rows(n)|
                        && Rows(o)[p..p'] == Rows(n)[q..q']
  {
    var gap := o[i..i + len];
    var x, y := i + len, j + len;
    if EndRow(o, i, p, false) && EndRow(n, j, q, false) {
      GapWith(o, n, i, j, x, y, gap, p, q, p', q', false);
    } else {
      GapWith(o, n, i, j, x, y, gap, p, q, p', q', true);
    }
  }

  lemma GapWith(o: string, n: string, i: int, j: int, x: int, y: int, gap: string,
                p: int, q: int, p': int, q': int, open: bool)
    requires 0 <= i <= x <= |o| && o[i..x] == gap
    requires 0 <= j <= y <= |n| && n[j..y] == gap
    requires EndRow(o, i, p, open) && EndRow(n, j, q, open)
    requires StartRows(o, n, x, y, p', q')
    ensures p' - p == q' - q
    ensures p <= p' ==> 0 <= p <= p' <= |Rows(o)| && 0 <= q <= q' <= |Rows(n)|
                        && Rows(o)[p..p'] == Rows(n)[q..q']
  {
    if StartRow(o, x, p', false) && StartRow(n, y, q', false) {
      GapOne(o, i, x, gap, p, p', open, false);
      GapOne(n, j, y, gap, q, q', open, false);
    } else {
      GapOne(o, i, x, gap, p, p', open, true);
      GapOne(n, j, y, gap, q, q', open, true);
    }
  }

  /** The rows of one text across a stretch of it, in terms of the stretch alone. */
  lemma GapOne(t: string, i: int, j: int, gap: string, p: int, p': int, open: bool, past: bool)
    requires 0 <= i <= j <= |t| && t[i..j] == gap
    requires EndRow(t, i, p, open) && StartRow(t, j, p', past)
    ensures var a, b := if open then 0 else 1, |Rows(gap)| - 1 + if past then 1 else 0;
            p' - p == b - a &&
            (a <= b ==> 0 <= p <= p' <= |Rows(t)| && Rows(t)[p..p'] == Rows(gap)[a..b])
  {
    GapCounts(t, i, j);
    if p <= p' {
      SharedRows(t, i, j, Rows(gap), p, p');
    }
  }

  lemma GapCounts(t: string, i: nat, j: nat)
    requires i <= j <= |t|
    ensures RowAt(t, j) == RowAt(t, i) + |Rows(t[i..j])| - 1
  {
    assert t[..j] == t[..i] + t[i..j];
    RowsOfConcat(t[..i], t[i..j]);
  }

  /** Rows of a text that lie wholly in a stretch of it are rows of the stretch. */
  lemma SharedRows(t: string, i: nat, j: nat, gap: seq<string>, p: int, p': int)
    requires i <= j <= |t| && gap == Rows(t[i..j])
    requires RowAt(t, i) <= p <= p' <= RowAt(t, i) + |gap|
    requires p == RowAt(t, i) ==> ColumnAt(t, i) == 0
    requires p' == RowAt(t, i) + |gap| ==> CharIsNewline(t, j)
    ensures p' <= |Rows(t)|
    ensures Rows(t)[p..p'] == gap[p - RowAt(t, i)..p' - RowAt(t, i)]
  {
    hide Rows, Glue;
    RowsOfPieces(t, i, j);
    FirstRowEmptyIf(t, j);
    GlueShared(Rows(t[..i]), gap, Rows(t[j..]), p - RowAt(t, i), p' - RowAt(t, i));
  }

  lemma RowsOfPieces(t: string, i: nat, j: nat)
    requires i <= j <= |t|
    ensures Rows(t) == Glue(Glue(Rows(t[..i]), Rows(t[i..j])), Rows(t[j..]))
  {
    RowsOfThree(t[..i], t[i..j], t[j..]);
    Cut(t, i, j);
  }

  lemma Cut(t: string, i: nat, j: nat)
    requires i <= j <= |t|
    ensures t == t[..i] + t[i..j] + t[j..]
  {
  }

  lemma RowsOfThree(a: string, g: string, z: string)
    ensures Rows(a + g + z) == Glue(Glue(Rows(a), Rows(g)), Rows(z))
  {
    RowsOfConcat(a, g);
    RowsOfConcat(a + g, z);
  }

  lemma FirstRowEmptyIf(t: string, j: nat)
    requires j <= |t|
    ensures CharIsNewline(t, j) ==> Rows(t[j..])[0] == ""
  {
  }

  lemma GlueShared(rs: seq<string>, ss: seq<string>, ts: seq<string>, a: nat, b: nat)
    requires rs != [] && ts != [] && a <= b <= |ss| && ss != []
    requires a == 0 ==> rs[|rs| - 1] == ""
    requires b == |ss| ==> ts[0] == ""
    ensures |rs| - 1 + b <= |Glue(Glue(rs, ss), ts)|
    ensures Glue(Glue(rs, ss), ts)[|rs| - 1 + a..|rs| - 1 + b] == ss[a..b]
  {
    var all := Glue(Glue(rs, ss), ts)[|rs| - 1 + a..|rs| - 1 + b];
    forall k | 0 <= k < b - a
      ensures all[k] == ss[a..b][k]
    {
      GlueInside(rs, ss, ts, a + k);
    }
  }

  /** The same at the end of the texts. */
  lemma TailRows(o: string, n: string, i: int, j: int, p: int, q: int)
    requires 0 <= i <= |o| && 0 <= j <= |n| && o[i..] == n[j..]
    requires EndRows(o, n, i, j, p, q)
    ensures p <= |Rows(o)| && q <= |Rows(n)| && Rows(o)[p..] == Rows(n)[q..]
  {
    var tail := o[i..];
    if EndRow(o, i, p, false) && EndRow(n, j, q, false) {
      TailOne(o, i, tail, p, false);
      TailOne(n, j, tail, q, false);
    } else {
      TailOne(o, i, tail, p, true);
      TailOne(n, j, tail, q, true);
    }
  }

  lemma TailOne(t: string, i: int, tail: string, p: int, open: bool)
    requires 0 <= i <= |t| && t[i..] == tail && EndRow(t, i, p, open)
    ensures 0 <= p <= |Rows(t)|
    ensures Rows(t)[p..] == if open then Rows(tail) else Rows(tail)[1..]
  {
    assert t == t[..i] + tail;
    RowsOfConcat(t[..i], tail);
    if open {
      GlueOpen(Rows(t[..i]), Rows(tail));
    }
  }

  lemma GlueOpen(rs: seq<string>, ss: seq<string>)
    requires rs != [] && ss != [] && rs[|rs| - 1] == ""
    ensures Glue(rs, ss)[|rs| - 1..] == ss
  {
    assert "" + ss[0] == ss[0];
  }

  // ----- merging

  /** Edits between two texts as the buffer reports them: separated, and each changes something. */
  ghost predicate UnitDiff(o: string, es: seq<Edit>, n: string) {
    Aligned(o, n, es, 0, 0) && Separated(es) &&
    forall k :: 0 <= k < |es| ==> !es[k].IsEmpty()
  }

  lemma UnitDiffAligned(o: string, es: seq<Edit>, n: string)
    requires UnitDiff(o, es, n)
    ensures Aligned(o, n, es, 0, 0)
  {
    hide Aligned, Separated;
  }

  /** The same edits between points, as the buffer hands them over. */
  ghost function PointEdits(o: string, es: seq<Edit>, n: string, i: int, j: int): seq<PointEdit>
    requires Aligned(o, n, es, i, j)
    decreases |es|
  {
    if es == [] then []
    else [ToPoints(es[0], o, n)] + PointEdits(o, es[1..], n, es[0].oldEnd, es[0].newEnd)
  }

  function Widen(pes: seq<PointEdit>, oldText: string, newText: string): (rs: seq<Edit>)
    ensures |rs| == |pes|
  {
    if pes == [] then []
    else [PointToRowEdit(pes[0], oldText, newText)] + Widen(pes[1..], oldText, newText)
  }

  ghost function RowEdits(o: string, es: seq<Edit>, n: string, i: int, j: int): seq<Edit>
    requires Aligned(o, n, es, i, j)
  {
    Widen(PointEdits(o, es, n, i, j), o, n)
  }

  lemma RowEditsHead(o: string, es: seq<Edit>, n: string, i: int, j: int)
    requires Aligned(o, n, es, i, j) && es != []
    ensures RowEdits(o, es, n, i, j) ==
            [RowEditOf(es[0], o, n)] + RowEdits(o, es[1..], n, es[0].oldEnd, es[0].newEnd)
  {
    assert PointEdits(o, es, n, i, j)[1..] ==
           PointEdits(o, es[1..], n, es[0].oldEnd, es[0].newEnd);
  }

  function Extend(p: Edit, e: Edit): Edit {
    p.(oldEnd := e.oldEnd, newEnd := e.newEnd)
  }

  /** Merges each edit into the pending one for as long as they meet. */
  function MergeFrom(pending: Edit, rs: seq<Edit>): seq<Edit>
    decreases |rs|
  {
    if rs == [] then [pending]
    else if pending.oldEnd >= rs[0].oldStart then MergeFrom(Extend(pending, rs[0]), rs[1..])
    else [pending] + MergeFrom(rs[0], rs[1..])
  }

  function Merge(rs: seq<Edit>): seq<Edit> {
    if rs == [] then [] else MergeFrom(rs[0], rs[1..])
  }

  /** Overwriting the end of the pending edit by the next one's never shrinks it. */
  lemma MergeNeverShrinks(o: string, n: string, e: Edit, i: int, j: int, p: int, q: int)
    requires e.Within(o, n) && 0 <= i < e.oldStart && 0 <= j < e.newStart
    requires o[i..e.oldStart] == n[j..e.newStart]
    requires EndRows(o, n, i, j, p, q)
    ensures p <= RowEditOf(e, o, n).oldEnd && q <= RowEditOf(e, o, n).newEnd
  {
    var newline := ColumnAt(o, e.oldStart) == 0;
    var last := o[i..e.oldStart][e.oldStart - i - 1];
    if newline {
      ColumnZero(o, e.oldStart);
    }
    assert newline ==> last == '\n';
    assert last == n[j..e.newStart][e.newStart - j - 1];
    EndAdvances(o, i, e.oldStart, e.oldEnd, p, newline);
    EndAdvances(n, j, e.newStart, e.newEnd, q, newline);
    WidenedEnds(e, o, n);
  }

  /** The row an edit ends on, unless it starts a row, is the row after its last position. */
  lemma WidenedEnds(e: Edit, o: string, n: string)
    requires e.Within(o, n)
    ensures var r := RowEditOf(e, o, n);
            || (r.oldEnd == RowAt(o, e.oldEnd) + 1 && r.newEnd == RowAt(n, e.newEnd) + 1)
            || (ColumnAt(o, e.oldStart) == 0
                && r.oldEnd == RowAt(o, e.oldEnd) && r.newEnd == RowAt(n, e.newEnd))
  {
  }

  lemma EndAdvances(t: string, i: int, j: int, k: int, p: int, newline: bool)
    requires 0 <= i < j <= k <= |t|
    requires p == RowAt(t, i) || p == RowAt(t, i) + 1
    requires newline ==> t[i..j][j - i - 1] == '\n'
    ensures p <= RowAt(t, k) + if newline then 0 else 1
  {
    GapAdvances(t, i, j);
    RowAtIsMonotone(t, j, k);
  }

  /** A stretch moves on by a row at least when it ends in a newline. */
  lemma GapAdvances(t: string, i: nat, j: nat)
    requires i < j <= |t|
    ensures RowAt(t, i) <= RowAt(t, j)
    ensures t[i..j][j - i - 1] == '\n' ==> RowAt(t, i) < RowAt(t, j)
  {
    GapCounts(t, i, j);
    if t[j - 1] == '\n' {
      EndsInNewline(t[i..j]);
    }
  }

  ghost predicate AllStartInside(o: string, n: string, rs: seq<Edit>) {
    StartsInside(Rows(o), Rows(n), rs)
  }

  /** Merging from a pending edit on: the rows are aligned from where it starts, the merged
      edits are separated, and each starts on a row that exists. */
  ghost predicate MergedFrom(o: string, n: string, pending: Edit, ms: seq<Edit>) {
    && ms != [] && ms[0].oldStart == pending.oldStart && ms[0].newStart == pending.newStart
    && Aligned(Rows(o), Rows(n), ms, pending.oldStart, pending.newStart)
    && SeparatedFrom(ms, pending.newStart - 1)
    && AllStartInside(o, n, ms)
  }

  ghost predicate Pending(o: string, n: string, p: Edit, i: int, j: int) {
    && p.Within(Rows(o), Rows(n)) && p.oldStart < |Rows(o)| && p.newStart < |Rows(n)|
    && EndRows(o, n, i, j, p.oldEnd, p.newEnd)
  }

  lemma MergedLast(o: string, n: string, p: Edit, i: int, j: int)
    requires Pending(o, n, p, i, j) && o[i..] == n[j..]
    ensures MergedFrom(o, n, p, [p])
  {
    TailRows(o, n, i, j, p.oldEnd, p.newEnd);
    assert [p][1..] == [];
    assert Aligned(Rows(o), Rows(n), [], p.oldEnd, p.newEnd);
  }

  lemma MergedBefore(o: string, n: string, p: Edit, i: int, j: int, r: Edit, len: int, ms: seq<Edit>)
    requires Pending(o, n, p, i, j) && MergedFrom(o, n, r, ms)
    requires 0 <= len && i + len <= |o| && j + len <= |n| && o[i..i + len] == n[j..j + len]
    requires StartRows(o, n, i + len, j + len, r.oldStart, r.newStart)
    requires p.oldEnd < r.oldStart
    ensures MergedFrom(o, n, p, [p] + ms)
  {
    var all := [p] + ms;
    assert all[1..] == ms;
    GapRows(o, n, i, j, len, p.oldEnd, p.newEnd, r.oldStart, r.newStart);
    AlignedBack(Rows(o), Rows(n), ms, r.oldStart, r.newStart, p.oldEnd, p.newEnd);
    SeparatedFromLower(ms, r.newStart - 1, p.newEnd);
  }

  lemma {:induction false} MergeFromAligned(
      o: string, n: string, es: seq<Edit>, i: int, j: int, p: Edit)
    requires Aligned(o, n, es, i, j) && SeparatedFrom(es, j)
    requires Pending(o, n, p, i, j)
    ensures MergedFrom(o, n, p, MergeFrom(p, RowEdits(o, es, n, i, j)))
    decreases |es|
  {
    if es == [] {
      MergedLast(o, n, p, i, j);
    } else {
      var r, rs, gap := FirstRowEdit(o, n, es, i, j, p);
      MergeStep(p, r, rs);
      if p.oldEnd >= r.oldStart {
        MergeFromAligned(o, n, es[1..], es[0].oldEnd, es[0].newEnd, Extend(p, r));
      } else {
        MergeFromAligned(o, n, es[1..], es[0].oldEnd, es[0].newEnd, r);
        MergedBefore(o, n, p, i, j, r, gap, MergeFrom(r, rs));
      }
    }
  }

  /** The first edit widened: it can be pending, and so can the pending edit extended by it. */
  lemma FirstRowEdit(o: string, n: string, es: seq<Edit>, i: int, j: int, p: Edit)
      returns (r: Edit, rs: seq<Edit>, gap: int)
    requires Aligned(o, n, es, i, j) && SeparatedFrom(es, j) && es != []
    requires Pending(o, n, p, i, j)
    ensures RowEdits(o, es, n, i, j) == [r] + rs
    ensures rs == RowEdits(o, es[1..], n, es[0].oldEnd, es[0].newEnd)
    ensures 0 <= gap && i + gap <= |o| && j + gap <= |n| && o[i..i + gap] == n[j..j + gap]
    ensures StartRows(o, n, i + gap, j + gap, r.oldStart, r.newStart)
    ensures Pending(o, n, r, es[0].oldEnd, es[0].newEnd)
    ensures Pending(o, n, Extend(p, r), es[0].oldEnd, es[0].newEnd)
  {
    hide *;
    AlignedIn(o, n, es, i, j);
    SeparatedHead(es, j);
    GapLength(o, n, es, i, j);
    r := RowEditOf(es[0], o, n);
    gap := es[0].oldStart - i;
    rs := RowEdits(o, es[1..], n, es[0].oldEnd, es[0].newEnd);
    RowEditsHead(o, es, n, i, j);
    WidenedIsPending(o, n, es[0], i, j, p);
  }

  lemma SeparatedHead(es: seq<Edit>, from: int)
    requires SeparatedFrom(es, from) && es != []
    ensures from < es[0].newStart <= es[0].newEnd && SeparatedFrom(es[1..], es[0].newEnd)
  {
  }

  lemma WidenedIsPending(o: string, n: string, e: Edit, i: int, j: int, p: Edit)
    requires e.Within(o, n) && 0 <= i < e.oldStart && 0 <= j < e.newStart
    requires o[i..e.oldStart] == n[j..e.newStart]
    requires Pending(o, n, p, i, j)
    ensures var r := RowEditOf(e, o, n);
            && StartRows(o, n, e.oldStart, e.newStart, r.oldStart, r.newStart)
            && Pending(o, n, r, e.oldEnd, e.newEnd)
            && Pending(o, n, Extend(p, r), e.oldEnd, e.newEnd)
  {
    hide RowEditOf, Rows, EndRows, StartRows;
    RowEditShape(e, o, n);
    MergeNeverShrinks(o, n, e, i, j, p.oldEnd, p.newEnd);
  }

  lemma MergeStep(p: Edit, r: Edit, rs: seq<Edit>)
    ensures MergeFrom(p, [r] + rs) ==
            if p.oldEnd >= r.oldStart then MergeFrom(Extend(p, r), rs)
            else [p] + MergeFrom(r, rs)
  {
    assert ([r] + rs)[1..] == rs;
  }

  /** Edits are merged only where they meet: two runs with a row between them stay apart, */
  lemma {:induction false} MergeKeepsApart(p: Edit, rs: seq<Edit>, ss: seq<Edit>)
    requires ss != [] && (if rs == [] then p else rs[|rs| - 1]).oldEnd < ss[0].oldStart
    ensures MergeFrom(p, rs + ss) == MergeFrom(p, rs) + Merge(ss)
    decreases |rs|
  {
    if rs == [] {
      assert rs + ss == ss;
    } else {
      assert (rs + ss)[1..] == rs[1..] + ss;
      assert rs[1..] != [] ==> rs[1..][|rs[1..]| - 1] == rs[|rs| - 1];
      if p.oldEnd >= rs[0].oldStart {
        MergeKeepsApart(Extend(p, rs[0]), rs[1..], ss);
      } else {
        MergeKeepsApart(rs[0], rs[1..], ss);
      }
    }
  }

  /** and a run in which each meets the next becomes one edit, from its first row to its last. */
  lemma {:induction false} MergeJoins(p: Edit, rs: seq<Edit>)
    requires rs != [] ==> p.oldEnd >= rs[0].oldStart
    requires forall k :: 0 <= k < |rs| - 1 ==> rs[k].oldEnd >= rs[k + 1].oldStart
    ensures MergeFrom(p, rs) == [if rs == [] then p else Extend(p, rs[|rs| - 1])]
    decreases |rs|
  {
    if rs != [] {
      assert rs[1..] != [] ==> rs[1..][0] == rs[1];
      MergeJoins(Extend(p, rs[0]), rs[1..]);
    }
  }

  /** The row diff theorem: widening every edit and merging those that meet gives a represented
      patch between the rows of the two texts. */
  lemma RowDiffIsRep(o: string, es: seq<Edit>, n: string)
    requires UnitDiff(o, es, n)
    ensures Rep(Rows(o), Merge(RowEdits(o, es, n, 0, 0)), Rows(n))
  {
    if es == [] {
      assert o[0..] == o && n[0..] == n;
    } else {
      var e, r := es[0], RowEditOf(es[0], o, n);
      var rs := RowEdits(o, es[1..], n, e.oldEnd, e.newEnd);
      GapLength(o, n, es, 0, 0);
      RowEditShape(e, o, n);
      RowEditsHead(o, es, n, 0, 0);
      assert ([r] + rs)[1..] == rs;
      MergeFromAligned(o, n, es[1..], e.oldEnd, e.newEnd, r);
      GapRows(o, n, 0, 0, e.oldStart, 0, 0, r.oldStart, r.newStart);
      AlignedBack(Rows(o), Rows(n), MergeFrom(r, rs), r.oldStart, r.newStart, 0, 0);
      SeparatedFromLower(MergeFrom(r, rs), r.newStart - 1, -1);
    }
  }

  // ----- replacing the rows of a widened edit

  function MinPoint(p: Point, q: Point): Point {
    if p.row < q.row || (p.row == q.row && p.column <= q.column) then p else q
  }

  /** The offset of a row start, clipped to the end of the text or not, is where the row starts,
      and the end of the text for a row past the last. */
  lemma RowStartIsPointOffset(t: string, row: nat)
    ensures PointToOffset(t, Point(row, 0)) == RowStart(t, row)
    ensures PointToOffset(t, MinPoint(Point(row, 0), MaxPoint(t))) == RowStart(t, row)
  {
    hide Rows, RowStart;
    assert t[..|t|] == t;
    if row >= |Rows(t)| {
      RowStartPastTheEnd(t, row);
    } else {
      LastRowStart(t);
    }
  }

  lemma LastRowStart(t: string)
    ensures RowStart(t, |Rows(t)| - 1) + |Rows(t)[|Rows(t)| - 1]| == |t|
  {
    hide Rows, RowStart;
    var rs := Rows(t);
    SplitAtRow(t, |rs| - 1);
    assert rs[|rs| - 1..] == [rs[|rs| - 1]];
  }

  /** Every row edit of a diff can be made on the bytes: replacing the bytes between the row
      starts is splicing the rows, also where the edit reaches a last row without a newline. */
  lemma WidenedEditsSplice(o: string, es: seq<Edit>, n: string, k: nat)
    requires UnitDiff(o, es, n) && k < |Merge(RowEdits(o, es, n, 0, 0))|
    ensures var r := Merge(RowEdits(o, es, n, 0, 0))[k];
            && 0 <= r.oldStart <= r.oldEnd && 0 <= r.newStart <= r.newEnd
            && r.Within(Rows(o), Rows(n))
            && Rows(ReplaceRows(o, r.oldStart, r.oldEnd, n, r.newStart, r.newEnd)) ==
               Rows(o)[..r.oldStart] + Rows(n)[r.newStart..r.newEnd] + Rows(o)[r.oldEnd..]
  {
    hide RowEdits, Merge, Rows, ReplaceRows;
    RowDiffIsRep(o, es, n);
    var rs := Merge(RowEdits(o, es, n, 0, 0));
    var r := rs[k];
    RepParts(Rows(o), rs, Rows(n));
    EditFacts(Rows(o), Rows(n), rs, 0, 0, k);
    ReplaceRowsSplices(o, r.oldStart, r.oldEnd, n, r.newStart, r.newEnd);
  }

  /** What the bytes become when one edit between the texts is made row by row. */
  ghost predicate MakesText(o: string, r: Edit, n: string) {
    && 0 <= r.oldStart <= r.oldEnd && 0 <= r.newStart <= r.newEnd
    && ReplaceRows(o, r.oldStart, r.oldEnd, n, r.newStart, r.newEnd) == n
  }

  /** A text changed in one place: making the widened edit on the bytes gives the new text. */
  lemma WidenedEditMakesText(o: string, e: Edit, n: string)
    requires UnitDiff(o, [e], n)
    ensures MakesText(o, RowEditOf(e, o, n), n)
  {
    hide RowEdits, Rows, ReplaceRows, RowEditOf;
    OneRowEdit(o, e, n);
    var r := RowEditOf(e, o, n);
    RowDiffIsRep(o, [e], n);
    WidenedEditsSplice(o, [e], n, 0);
    OneEdit(Rows(o), Rows(n), r);
    var made := ReplaceRows(o, r.oldStart, r.oldEnd, n, r.newStart, r.newEnd);
    JoinOfRows(made);
    JoinOfRows(n);
  }

  lemma OneRowEdit(o: string, e: Edit, n: string)
    requires UnitDiff(o, [e], n)
    ensures Merge(RowEdits(o, [e], n, 0, 0)) == [RowEditOf(e, o, n)]
  {
    hide RowEditOf;
    RowEditsHead(o, [e], n, 0, 0);
    assert RowEdits(o, [e][1..], n, e.oldEnd, e.newEnd) == [];
  }

  lemma OneEdit(b: seq<string>, s: seq<string>, r: Edit)
    requires Aligned(b, s, [r], 0, 0)
    ensures r.Within(b, s)
    ensures b[..r.oldStart] + s[r.newStart..r.newEnd] + b[r.oldEnd..] == s
  {
    assert [r][1..] == [];
    assert Aligned(b, s, [], r.oldEnd, r.newEnd);
    assert b[..r.oldStart] == b[0..r.oldStart] && s[..r.newStart] == s[0..r.newStart];
    assert s == s[..r.newStart] + s[r.newStart..r.newEnd] + s[r.newEnd..];
  }

  /** The widening rule without its last condition, that the edit does not start at the end of
      the old text. */
  ghost function UnguardedRowEdit(e: Edit, o: string, n: string): Edit
    requires e.Within(o, n)
  {
    var p := ToPoints(e, o, n);
    if p.oldStart.column == LineLen(o, p.oldStart.row) && CharIsNewline(n, PointToOffset(n, p.newStart))
    then Edit(p.oldStart.row + 1, p.oldEnd.row + 1, p.newStart.row + 1, p.newEnd.row + 1)
    else RowEditOf(e, o, n)
  }

  /** The condition is needed, and exactly for appending a newline to the last row: without it
      the row edit would start past the end, and the newline would be lost. */
  lemma GuardIsNeeded(o: string, e: Edit, n: string)
    requires UnitDiff(o, [e], n)
    ensures MakesText(o, UnguardedRowEdit(e, o, n), n) <==>
            !(e.oldStart == |o| && CharIsNewline(n, e.newStart))
  {
    hide Rows, ReplaceRows, RowStart;
    PointRoundTrip(o, e.oldStart);
    PointRoundTrip(o, |o|);
    PointRoundTrip(n, e.newStart);
    assert o[..|o|] == o;
    if e.oldStart == |o| && CharIsNewline(n, e.newStart) {
      LosesNewline(o, e, n);
    } else {
      WidenedEditMakesText(o, e, n);
    }
  }

  lemma LosesNewline(o: string, e: Edit, n: string)
    requires UnitDiff(o, [e], n) && e.oldStart == |o| && CharIsNewline(n, e.newStart)
    ensures !MakesText(o, UnguardedRowEdit(e, o, n), n)
  {
    hide Rows, RowStart;
    var u := UnguardedRowEdit(e, o, n);
    AppendEnds(o, e, n);
    assert o[..|o|] == o && n[..|n|] == n;
    PointRoundTrip(n, e.newStart);
    assert u.oldStart == |Rows(o)| && u.oldEnd == |Rows(o)|;
    assert u.newStart == |Rows(o)| && u.newEnd == |Rows(n)|;
    RowStartPastTheEnd(o, |Rows(o)|);
    RowStartPastTheEnd(n, |Rows(n)|);
    RowAfterStarts(o, n);
  }

  lemma AppendEnds(o: string, e: Edit, n: string)
    requires UnitDiff(o, [e], n) && e.oldStart == |o|
    ensures e.oldEnd == |o| && e.newStart == |o| && e.newEnd == |n| && n[..|o|] == o
  {
    assert [e][1..] == [];
    assert Aligned(o, n, [], e.oldEnd, e.newEnd);
    assert |o[e.oldEnd..]| == |n[e.newEnd..]|;
    assert |o[0..e.oldStart]| == |n[0..e.newStart]|;
    assert o == o[0..e.oldStart] == n[0..e.newStart] == n[..|o|];
  }

  /** A row starts after the newline that ends the row before it. */
  lemma RowAfterStarts(o: string, n: string)
    requires |o| < |n| && n[..|o|] == o && n[|o|] == '\n'
    ensures RowStart(n, |Rows(o)|) == |o| + 1
  {
    hide Rows, RowStart, PointToOffset;
    var k := |o| + 1;
    assert n[..k] == o + "\n";
    PointRoundTrip(n, k);
    RowsAfterNewline(o);
    RowStartIsPointOffset(n, |Rows(o)|);
    assert OffsetToPoint(n, k) == Point(|Rows(o)|, 0);
  }

  lemma RowsAfterNewline(o: string)
    ensures Rows(o + "\n") == Rows(o) + [""]
  {
    hide Rows;
    RowsOfConcat(o, "\n");
    RowsOfRowAndMore("", "");
    RowsOfOneRow("");
    assert "" + "\n" + "" == "\n";
    var rs := Rows(o);
    assert rs[|rs| - 1] + "" == rs[|rs| - 1];
  }

  // ----- the loops

  /** The engine's row diff: widen each edit, and let the pending one absorb those it meets. */
  method DiffSnapshots(edits: seq<PointEdit>, oldText: string, newText: string, ghost diff: seq<Edit>)
      returns (rowEdits: seq<Edit>)
    ensures rowEdits == Merge(Widen(edits, oldText, newText))
    ensures UnitDiff(oldText, diff, newText) && edits == PointEdits(oldText, diff, newText, 0, 0) ==>
              Rep(Rows(oldText), rowEdits, Rows(newText))
  {
    hide Rows, Rep, Merge, Widen, PointEdits, Aligned, Separated, RowEdits;
    var widened := Widen(edits, oldText, newText);
    rowEdits := MergeRowEdits(widened);
    if UnitDiff(oldText, diff, newText) && edits == PointEdits(oldText, diff, newText, 0, 0) {
      RowDiffIsRep(oldText, diff, newText);
      RowEditsAre(oldText, diff, newText);
    }
  }

  lemma RowEditsAre(o: string, es: seq<Edit>, n: string)
    requires UnitDiff(o, es, n)
    ensures RowEdits(o, es, n, 0, 0) == Widen(PointEdits(o, es, n, 0, 0), o, n)
  {
    hide Widen, PointEdits, Separated;
  }

  /** An edit that does not reach the next stays as it is. */
  lemma MergeAlone(p: Edit, rs: seq<Edit>)
    requires rs == [] || p.oldEnd < rs[0].oldStart
    ensures MergeFrom(p, rs) == [p] + Merge(rs)
  {
  }

  lemma MergeIs(rs: seq<Edit>)
    requires rs != []
    ensures Merge(rs) == MergeFrom(rs[0], rs[1..])
  {
    hide MergeFrom;
  }

  method MergeRowEdits(edits: seq<Edit>) returns (rowEdits: seq<Edit>)
    ensures rowEdits == Merge(edits)
  {
    hide *;
    rowEdits := [];
    var next := 0;
    assert edits[0..] == edits && [] + Merge(edits) == Merge(edits);
    while next < |edits|
      invariant 0 <= next <= |edits|
      invariant Merge(edits) == rowEdits + Merge(edits[next..])
    {
      var edit := edits[next];
      MergeIs(edits[next..]);
      assert edits[next..][1..] == edits[next + 1..];
      next := next + 1;
      while next < |edits| && edit.oldEnd >= edits[next].oldStart
        invariant 0 < next <= |edits|
        invariant Merge(edits) == rowEdits + MergeFrom(edit, edits[next..])
        decreases |edits| - next
      {
        assert edits[next..] == [edits[next]] + edits[next + 1..];
        MergeStep(edit, edits[next], edits[next + 1..]);
        edit := Extend(edit, edits[next]);
        next := next + 1;
      }
      MergeAlone(edit, edits[next..]);
      assert rowEdits + ([edit] + Merge(edits[next..])) == rowEdits + [edit] + Merge(edits[next..]);
      rowEdits := rowEdits + [edit];
    }
    MergeNothing(edits);
    assert rowEdits + [] == rowEdits;
  }

  lemma MergeNothing(edits: seq<Edit>)
    ensures Merge(edits[|edits|..]) == []
  {
  }

  /** How a patch takes one more edit: an empty one is dropped, one that meets the last is
      merged into it. */
  function Push(es: seq<Edit>, e: Edit): seq<Edit> {
    if e.IsEmpty() then es
    else if es != [] && es[|es| - 1].oldEnd >= e.oldStart
    then es[|es| - 1 := Extend(es[|es| - 1], e)]
    else es + [e]
  }

  /** The unreviewed edits the engine builds from the hunks of a diff, one push at a time. */
  method PushAll(edits: seq<Edit>) returns (es: seq<Edit>)
    ensures es == Merge(NotEmpty(edits))
  {
    hide Push, Merge, MergeFrom, NotEmpty;
    es := [];
    PushNone(edits);
    for next := 0 to |edits|
      invariant Merge(NotEmpty(edits)) == Pushed(es, NotEmpty(edits[next..]))
    {
      NotEmptyHead(edits, next);
      if edits[next].IsEmpty() {
        assert [] + NotEmpty(edits[next + 1..]) == NotEmpty(edits[next + 1..]);
      } else {
        PushStep(es, edits[next], NotEmpty(edits[next + 1..]));
      }
      PushEmpty(es, edits[next]);
      es := Push(es, edits[next]);
    }
    PushedNone(es, edits);
  }

  /** The edits that change something. */
  function NotEmpty(es: seq<Edit>): seq<Edit> {
    if es == [] then [] else (if es[0].IsEmpty() then [] else [es[0]]) + NotEmpty(es[1..])
  }

  /** A patch whose last edit is still pending, merged with the edits to come. */
  ghost function Pushed(es: seq<Edit>, rs: seq<Edit>): seq<Edit> {
    if es == [] then Merge(rs) else es[..|es| - 1] + MergeFrom(es[|es| - 1], rs)
  }

  lemma PushNone(edits: seq<Edit>)
    ensures Pushed([], NotEmpty(edits[0..])) == Merge(NotEmpty(edits))
  {
    hide NotEmpty, Merge;
    assert edits[0..] == edits;
  }

  lemma PushedNone(es: seq<Edit>, edits: seq<Edit>)
    ensures Pushed(es, NotEmpty(edits[|edits|..])) == es
  {
    assert edits[|edits|..] == [];
    assert es != [] ==> es == es[..|es| - 1] + [es[|es| - 1]];
  }

  lemma NotEmptyHead(edits: seq<Edit>, k: nat)
    requires k < |edits|
    ensures NotEmpty(edits[k..]) ==
            (if edits[k].IsEmpty() then [] else [edits[k]]) + NotEmpty(edits[k + 1..])
  {
    assert edits[k..][1..] == edits[k + 1..];
  }

  lemma PushEmpty(es: seq<Edit>, e: Edit)
    ensures e.IsEmpty() ==> Push(es, e) == es
  {
  }

  lemma PushedIs(init: seq<Edit>, last: Edit, rs: seq<Edit>)
    ensures Pushed(init + [last], rs) == init + MergeFrom(last, rs)
  {
    hide MergeFrom;
    assert (init + [last])[..|init|] == init;
  }

  lemma PushIs(init: seq<Edit>, last: Edit, e: Edit)
    requires !e.IsEmpty()
    ensures Push(init + [last], e) ==
            if last.oldEnd >= e.oldStart then init + [Extend(last, e)] else init + [last] + [e]
  {
  }

  lemma PushFirst(e: Edit, rs: seq<Edit>)
    requires !e.IsEmpty()
    ensures Push([], e) == [] + [e] && Pushed([], [e] + rs) == [] + MergeFrom(e, rs)
  {
    hide MergeFrom;
    assert ([e] + rs)[1..] == rs;
  }

  lemma PushStep(es: seq<Edit>, e: Edit, rs: seq<Edit>)
    requires !e.IsEmpty()
    ensures Pushed(Push(es, e), rs) == Pushed(es, [e] + rs)
  {
    hide *;
    if es == [] {
      PushFirst(e, rs);
      PushedIs([], e, rs);
    } else {
      var init, last := es[..|es| - 1], es[|es| - 1];
      assert es == init + [last];
      PushIs(init, last, e);
      PushedIs(init, last, [e] + rs);
      MergeStep(last, e, rs);
      if last.oldEnd >= e.oldStart {
        PushedIs(init, Extend(last, e), rs);
      } else {
        PushedIs(init + [last], e, rs);
        assert init + ([last] + MergeFrom(e, rs)) == init + [last] + MergeFrom(e, rs);
      }
    }
  }

  /** Nothing is dropped from edits that all change something. */
  lemma {:induction false} NotEmptyAll(es: seq<Edit>)
    requires forall k :: 0 <= k < |es| ==> !es[k].IsEmpty()
    ensures NotEmpty(es) == es
  {
    if es != [] {
      NotEmptyAll(es[1..]);
    }
  }

  lemma {:induction false} RowEditCount(o: string, es: seq<Edit>, n: string, i: int, j: int)
    requires Aligned(o, n, es, i, j)
    ensures |RowEdits(o, es, n, i, j)| == |es|
    decreases |es|
  {
    if es != [] {
      RowEditCount(o, es[1..], n, es[0].oldEnd, es[0].newEnd);
    }
  }

  /** The edits a diff reports all change something, and so do the edits they widen to. */
  lemma {:induction false} RowEditsNotEmpty(o: string, es: seq<Edit>, n: string, i: int, j: int, k: int)
    requires Aligned(o, n, es, i, j)
    requires forall m :: 0 <= m < |es| ==> !es[m].IsEmpty()
    requires 0 <= k < |es| == |RowEdits(o, es, n, i, j)|
    ensures !RowEdits(o, es, n, i, j)[k].IsEmpty()
    decreases |es|
  {
    hide RowEdits, RowEditOf, Rows;
    if es != [] {
      var e := es[0];
      assert e.Within(o, n) && Aligned(o, n, es[1..], e.oldEnd, e.newEnd);
      RowEditsHead(o, es, n, i, j);
      if k == 0 {
        if RowEditOf(e, o, n).IsEmpty() {
          RowEditNotEmpty(e, o, n);
        }
      } else {
        RowEditsNotEmpty(o, es[1..], n, e.oldEnd, e.newEnd, k - 1);
      }
    }
  }
}

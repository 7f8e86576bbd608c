/** Texts as a rope shows them: a flat string of units, and the rows a newline cuts it into.

    The rope works on bytes; one unit here stands for one byte, and the newline is the only
    unit with a meaning.  `Rows` and `Join` are inverse to each other, so a text may be read
    either way, and every position the review engine computes is a row start. */
module Texts {

  /** Where the first newline is; the length of the text when there is none. */
  function FirstNewline(t: string): (k: nat)
    ensures k <= |t| && (k < |t| ==> t[k] == '\n')
    ensures '\n' !in t[..k]
  {
    if t == "" || t[0] == '\n' then 0 else
      var k := 1 + FirstNewline(t[1..]);
      assert t[..k] == [t[0]] + t[1..][..k - 1];
      k
  }

  /** The rows of a text; the last one is never terminated, so there is always at least one. */
  function Rows(t: string): (rs: seq<string>)
    ensures |rs| >= 1
    decreases |t|
  {
    var k := FirstNewline(t);
    if k == |t| then [t] else [t[..k]] + Rows(t[k + 1..])
  }

  /** Rows written out with a newline after each. */
  function Lines(rs: seq<string>): string {
    if rs == [] then "" else rs[0] + "\n" + Lines(rs[1..])
  }

  /** Rows written out with a newline between each two. */
  function Join(rs: seq<string>): string {
    if rs == [] then ""
    else if |rs| == 1 then rs[0]
    else rs[0] + "\n" + Join(rs[1..])
  }

  ghost predicate NoNewlines(rs: seq<string>) {
    forall k :: 0 <= k < |rs| ==> '\n' !in rs[k]
  }

  /** Where row `row` starts; the end of the text for a row past the last. */
  function RowStart(t: string, row: nat): (offset: nat)
    ensures offset <= |t|
  {
    var k := FirstNewline(t);
    if row == 0 then 0
    else if k == |t| then |t|
    else k + 1 + RowStart(t[k + 1..], row - 1)
  }

  // ----- splitting and joining

  lemma {:induction false} RowsHaveNoNewlines(t: string)
    ensures NoNewlines(Rows(t))
    decreases |t|
  {
    hide FirstNewline;
    var k := FirstNewline(t);
    if k == |t| {
      assert t[..k] == t;
    } else {
      RowsHaveNoNewlines(t[k + 1..]);
      assert Rows(t) == [t[..k]] + Rows(t[k + 1..]);
    }
  }

  lemma {:induction false} JoinOfRows(t: string)
    ensures Join(Rows(t)) == t
    decreases |t|
  {
    hide *;
    var k := FirstNewline(t);
    RowsUnfold(t);
    if k == |t| {
      JoinOne(t);
    } else {
      JoinOfRows(t[k + 1..]);
      JoinCons(t[..k], Rows(t[k + 1..]));
      CutAtNewline(t, k);
    }
  }

  lemma {:induction false} RowsUnfold(t: string)
    ensures var k := FirstNewline(t);
            Rows(t) == if k == |t| then [t] else [t[..k]] + Rows(t[k + 1..])
  {
    hide FirstNewline;
  }

  lemma JoinOne(r: string)
    ensures Join([r]) == r
  {
  }

  lemma JoinCons(r: string, rs: seq<string>)
    requires rs != []
    ensures Join([r] + rs) == r + "\n" + Join(rs)
  {
    assert ([r] + rs)[1..] == rs;
  }

  lemma CutAtNewline(t: string, k: nat)
    requires k < |t| && t[k] == '\n'
    ensures t == t[..k] + "\n" + t[k + 1..]
  {
  }

  lemma {:induction false} FirstNewlineIsFirst(t: string, i: nat)
    requires i < |t| && t[i] == '\n'
    ensures FirstNewline(t) <= i
  {
    if i > 0 && t[0] != '\n' {
      FirstNewlineIsFirst(t[1..], i - 1);
    }
  }

  lemma {:induction false} FirstNewlineAfter(r: string, t: string)
    requires '\n' !in r
    ensures FirstNewline(r + t) == |r| + FirstNewline(t)
  {
    if r == "" {
      assert r + t == t;
    } else {
      FirstNewlineAfter(r[1..], t);
      assert (r + t)[1..] == r[1..] + t;
    }
  }

  /** Cutting a text that is a row, a newline and more. */
  lemma RowsOfRowAndMore(r: string, t: string)
    requires '\n' !in r
    ensures Rows(r + "\n" + t) == [r] + Rows(t)
  {
    hide Rows;
    var all := r + ("\n" + t);
    assert r + "\n" + t == all;
    FirstNewlineAfter(r, "\n" + t);
    RowsUnfold(all);
    hide FirstNewline;
    assert all[..|r|] == r && all[|r| + 1..] == t;
  }

  lemma RowsOfOneRow(r: string)
    requires '\n' !in r
    ensures Rows(r) == [r]
  {
    hide Rows;
    FirstNewlineAfter(r, "");
    RowsUnfold(r);
    assert r + "" == r;
  }

  /** The other half of the bijection. */
  lemma {:induction false} RowsOfJoin(rs: seq<string>)
    requires |rs| >= 1 && NoNewlines(rs)
    ensures Rows(Join(rs)) == rs
  {
    hide Rows, FirstNewline;
    if |rs| == 1 {
      RowsOfOneRow(rs[0]);
    } else {
      RowsOfJoin(rs[1..]);
      RowsOfRowAndMore(rs[0], Join(rs[1..]));
    }
  }

  lemma {:induction false} LinesOfConcat(a: seq<string>, b: seq<string>)
    ensures Lines(a + b) == Lines(a) + Lines(b)
  {
    hide Lines;
    LinesUnfold(a);
    if a == [] {
      assert a + b == b;
    } else {
      LinesOfConcat(a[1..], b);
      LinesUnfold(a + b);
      assert (a + b)[1..] == a[1..] + b;
      Reassociate(a[0] + "\n", Lines(a[1..]), Lines(b));
    }
  }

  lemma LinesUnfold(rs: seq<string>)
    ensures Lines(rs) == if rs == [] then "" else rs[0] + "\n" + Lines(rs[1..])
  {
  }

  lemma JoinUnfold(rs: seq<string>)
    requires |rs| > 1
    ensures Join(rs) == rs[0] + "\n" + Join(rs[1..])
  {
  }

  lemma Reassociate(x: string, y: string, z: string)
    ensures x + (y + z) == x + y + z
  {
  }

  lemma {:induction false} JoinOfConcat(a: seq<string>, b: seq<string>)
    requires b != []
    ensures Join(a + b) == Lines(a) + Join(b)
  {
    hide Join, Lines;
    LinesUnfold(a);
    if a == [] {
      assert a + b == b;
    } else {
      JoinOfConcat(a[1..], b);
      JoinUnfold(a + b);
      assert (a + b)[1..] == a[1..] + b;
      Reassociate(a[0] + "\n", Lines(a[1..]), Join(b));
    }
  }

  // ----- row starts

  /** The text before a row start is the rows before it, each terminated; the text from it on
      is the remaining rows. */
  lemma {:induction false} SplitAtRow(t: string, row: nat)
    requires row < |Rows(t)|
    ensures t[..RowStart(t, row)] == Lines(Rows(t)[..row])
    ensures t[RowStart(t, row)..] == Join(Rows(t)[row..])
  {
    hide *;
    var rs := Rows(t);
    JoinOfRows(t);
    assert rs == rs[..row] + rs[row..];
    JoinOfConcat(rs[..row], rs[row..]);
    RowStartIsLineLength(t, row);
  }

  lemma {:induction false} RowStartIsLineLength(t: string, row: nat)
    requires row < |Rows(t)|
    ensures RowStart(t, row) == |Lines(Rows(t)[..row])|
    decreases row
  {
    hide Rows, FirstNewline, Lines;
    RowsUnfold(t);
    LinesUnfold(Rows(t)[..row]);
    if row > 0 {
      var t' := t[FirstNewline(t) + 1..];
      RowStartIsLineLength(t', row - 1);
      assert Rows(t)[..row][1..] == Rows(t')[..row - 1];
    }
  }

  lemma {:induction false} RowStartPastTheEnd(t: string, row: nat)
    requires row >= |Rows(t)|
    ensures RowStart(t, row) == |t|
    decreases row
  {
    if FirstNewline(t) < |t| {
      RowStartPastTheEnd(t[FirstNewline(t) + 1..], row - 1);
    }
  }

  lemma {:induction false} RowStartIsMonotone(t: string, a: nat, b: nat)
    requires a <= b
    ensures RowStart(t, a) <= RowStart(t, b)
    decreases a
  {
    if a > 0 && FirstNewline(t) < |t| {
      RowStartIsMonotone(t[FirstNewline(t) + 1..], a - 1, b - 1);
    }
  }

  /** The text of a run of rows: terminated unless the run reaches the end of the text. */
  function SliceRows(t: string, a: nat, b: nat): string
    requires a <= b
  {
    RowStartIsMonotone(t, a, b);
    t[RowStart(t, a)..RowStart(t, b)]
  }

  lemma SliceLength(t: string, a: nat, b: nat)
    requires a <= b
    ensures RowStart(t, a) <= RowStart(t, b) <= |t|
    ensures |SliceRows(t, a, b)| == RowStart(t, b) - RowStart(t, a)
    ensures SliceRows(t, a, b) == t[RowStart(t, a)..RowStart(t, b)]
  {
    hide RowStart;
    RowStartIsMonotone(t, a, b);
  }

  lemma SliceOfRows(t: string, a: nat, b: nat)
    requires a <= b <= |Rows(t)| && a < |Rows(t)|
    ensures b < |Rows(t)| ==> SliceRows(t, a, b) == Lines(Rows(t)[a..b])
    ensures b == |Rows(t)| ==> SliceRows(t, a, b) == Join(Rows(t)[a..])
  {
    hide Rows, Lines, Join, RowStart;
    var rs := Rows(t);
    SplitAtRow(t, a);
    RowStartIsMonotone(t, a, b);
    if b < |rs| {
      SplitAtRow(t, b);
      LinesOfConcat(rs[..a], rs[a..b]);
      assert rs[..a] + rs[a..b] == rs[..b];
      SliceBetween(t, RowStart(t, a), RowStart(t, b), Lines(rs[..a]), Lines(rs[a..b]));
    } else {
      RowStartPastTheEnd(t, b);
    }
  }

  lemma SliceBetween(t: string, x: nat, y: nat, p: string, q: string)
    requires x <= y <= |t| && t[..x] == p && t[..y] == p + q
    ensures t[x..y] == q
  {
    assert t[x..y] == t[..y][x..];
  }

  lemma RowsOfLines(rs: seq<string>)
    requires NoNewlines(rs)
    ensures Rows(Lines(rs)) == rs + [""]
  {
    hide Rows, Lines;
    JoinOfConcat(rs, [""]);
    assert Lines(rs) + "" == Lines(rs);
    RowsOfJoin(rs + [""]);
  }

  lemma SameRowsText(o: string, n: string, a: nat, b: nat, c: nat, d: nat)
    requires a <= b <= |Rows(o)| && a < |Rows(o)| && c <= d <= |Rows(n)| && c < |Rows(n)|
    requires Rows(o)[a..b] == Rows(n)[c..d] && (b == |Rows(o)| <==> d == |Rows(n)|)
    ensures SliceRows(o, a, b) == SliceRows(n, c, d)
    ensures RowStart(o, b) - RowStart(o, a) == RowStart(n, d) - RowStart(n, c)
  {
    hide Rows, Lines, Join, RowStart;
    SliceOfRows(o, a, b);
    SliceOfRows(n, c, d);
    if b == |Rows(o)| {
      assert Rows(o)[a..] == Rows(o)[a..b] && Rows(n)[c..] == Rows(n)[c..d];
    }
    RowStartIsMonotone(o, a, b);
    RowStartIsMonotone(n, c, d);
    assert |SliceRows(o, a, b)| == RowStart(o, b) - RowStart(o, a);
    assert |SliceRows(n, c, d)| == RowStart(n, d) - RowStart(n, c);
  }

  /** Runs of rows that both or neither reach the end read the same exactly when their rows do. */
  lemma SameTextIsSameRows(o: string, n: string, a: nat, b: nat, c: nat, d: nat)
    requires a <= b <= |Rows(o)| && a < |Rows(o)| && c <= d <= |Rows(n)| && c < |Rows(n)|
    requires b == |Rows(o)| <==> d == |Rows(n)|
    ensures SliceRows(o, a, b) == SliceRows(n, c, d) <==> Rows(o)[a..b] == Rows(n)[c..d]
  {
    hide Rows, Lines, Join, RowStart, SliceRows;
    if Rows(o)[a..b] == Rows(n)[c..d] {
      SameRowsText(o, n, a, b, c, d);
    } else if SliceRows(o, a, b) == SliceRows(n, c, d) {
      SliceOfRows(o, a, b);
      SliceOfRows(n, c, d);
      RowsInside(o, a, b);
      RowsInside(n, c, d);
      if b == |Rows(o)| {
        RowsOfJoin(Rows(o)[a..]);
        RowsOfJoin(Rows(n)[c..]);
      } else {
        RowsOfLines(Rows(o)[a..b]);
        RowsOfLines(Rows(n)[c..d]);
        DropLast(Rows(o)[a..b], Rows(n)[c..d]);
      }
      assert false;
    }
  }

  lemma RowsInside(t: string, a: nat, b: nat)
    requires a <= b <= |Rows(t)|
    ensures NoNewlines(Rows(t)[a..b]) && (b == |Rows(t)| ==> Rows(t)[a..] == Rows(t)[a..b])
  {
    hide Rows;
    RowsHaveNoNewlines(t);
  }

  lemma DropLast(x: seq<string>, y: seq<string>)
    requires x + [""] == y + [""]
    ensures x == y
  {
    assert x == (x + [""])[..|x + [""]| - 1] && y == (y + [""])[..|y + [""]| - 1];
  }

  // ----- replacing rows

  /** What the rope does to replace rows `a..b` by rows `c..d` of another text: find the row
      starts, clip them to the end, and replace the bytes between them. */
  function ReplaceRows(t: string, a: nat, b: nat, n: string, c: nat, d: nat): string
    requires a <= b && c <= d
  {
    t[..RowStart(t, a)] + SliceRows(n, c, d) + t[RowStart(t, b)..]
  }

  /** Replacing bytes between row starts is splicing rows, provided both runs start on a row
      that exists and either both or neither reach the end of their text. */
  lemma ReplaceRowsSplices(t: string, a: nat, b: nat, n: string, c: nat, d: nat)
    requires a <= b <= |Rows(t)| && a < |Rows(t)|
    requires c <= d <= |Rows(n)| && c < |Rows(n)|
    requires b == |Rows(t)| <==> d == |Rows(n)|
    ensures Rows(ReplaceRows(t, a, b, n, c, d)) == Rows(t)[..a] + Rows(n)[c..d] + Rows(t)[b..]
  {
    hide Rows, Join, Lines, RowStart, SliceRows, NoNewlines;
    var rs, ss := Rows(t), Rows(n);
    var spliced := rs[..a] + ss[c..d] + rs[b..];
    SplitAtRow(t, a);
    SliceOfRows(n, c, d);
    if b < |rs| {
      SplitAtRow(t, b);
      JoinOfConcat(rs[..a] + ss[c..d], rs[b..]);
      LinesOfConcat(rs[..a], ss[c..d]);
    } else {
      RowStartPastTheEnd(t, b);
      assert t[RowStart(t, b)..] == "" && spliced == rs[..a] + ss[c..];
      JoinOfConcat(rs[..a], ss[c..]);
      assert Lines(rs[..a]) + Join(ss[c..]) + "" == Lines(rs[..a]) + Join(ss[c..]);
    }
    assert Join(spliced) == ReplaceRows(t, a, b, n, c, d);
    RowsHaveNoNewlines(t);
    RowsHaveNoNewlines(n);
    NoNewlinesSpliced(rs, ss, a, b, c, d);
    RowsOfJoin(spliced);
  }

  lemma NoNewlinesSpliced(rs: seq<string>, ss: seq<string>, a: nat, b: nat, c: nat, d: nat)
    requires NoNewlines(rs) && NoNewlines(ss) && a <= b <= |rs| && c <= d <= |ss|
    ensures NoNewlines(rs[..a] + ss[c..d] + rs[b..])
  {
  }
}

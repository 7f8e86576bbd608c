/** Patches: ordered lists of edits between two sequences.

    The same shape serves for units of a text and for its rows.  `Aligned` says that a patch
    turns one sequence into another: between two edits, and before the first and after the
    last, both sequences read the same.  Keeping, committing and rejecting all choose some of
    the edits, and `Mid` is the sequence that lies between: the chosen edits made, the others
    not.  The lemmas about it are what all three operations rest on. */
module Patches {

  /** Replaces `oldStart..oldEnd` of one sequence by `newStart..newEnd` of another. */
  datatype Edit = Edit(oldStart: int, oldEnd: int, newStart: int, newEnd: int) {
    function Delta(): int {
      (newEnd - newStart) - (oldEnd - oldStart)
    }
    predicate IsEmpty() {
      oldStart == oldEnd && newStart == newEnd
    }
    function Inverse(): Edit {
      Edit(newStart, newEnd, oldStart, oldEnd)
    }
    function ShiftOld(delta: int): Edit {
      this.(oldStart := oldStart + delta, oldEnd := oldEnd + delta)
    }
    function ShiftNew(delta: int): Edit {
      this.(newStart := newStart + delta, newEnd := newEnd + delta)
    }
    ghost predicate Within<T>(b: seq<T>, s: seq<T>) {
      0 <= oldStart <= oldEnd <= |b| && 0 <= newStart <= newEnd <= |s|
    }
  }

  /** From `i` in `b` and `j` in `s` on, the edits turn `b` into `s`. */
  ghost predicate Aligned<T>(b: seq<T>, s: seq<T>, es: seq<Edit>, i: int, j: int)
    decreases |es|
  {
    0 <= i <= |b| && 0 <= j <= |s| &&
    if es == [] then b[i..] == s[j..]
    else
      var e := es[0];
      e.Within(b, s) && i <= e.oldStart && j <= e.newStart &&
      b[i..e.oldStart] == s[j..e.newStart] &&
      Aligned(b, s, es[1..], e.oldEnd, e.newEnd)
  }

  /** Every edit starts strictly after the one before it ended; the first one after `from`. */
  ghost predicate SeparatedFrom(es: seq<Edit>, from: int)
    decreases |es|
  {
    es == [] ||
    (from < es[0].newStart <= es[0].newEnd && SeparatedFrom(es[1..], es[0].newEnd))
  }

  ghost predicate Separated(es: seq<Edit>) {
    SeparatedFrom(es, -1)
  }

  /** Every edit starts on an element that exists, on both sides. */
  ghost predicate StartsInside<T>(b: seq<T>, s: seq<T>, es: seq<Edit>) {
    forall k :: 0 <= k < |es| ==> es[k].oldStart < |b| && es[k].newStart < |s|
  }

  /** The engine's invariant: the patch turns `b` into `s`, its edits are strictly separated,
      and each starts on a row that exists. */
  ghost predicate Rep<T>(b: seq<T>, es: seq<Edit>, s: seq<T>) {
    Aligned(b, s, es, 0, 0) && Separated(es) && StartsInside(b, s, es)
  }

  /** A slice, empty when it is out of range. */
  function Slice<T>(s: seq<T>, from: int, to: int): seq<T> {
    if 0 <= from <= to <= |s| then s[from..to] else []
  }

  // ----- cursors

  lemma AlignedAfterHead<T>(b: seq<T>, s: seq<T>, es: seq<Edit>, i: int, j: int)
    requires Aligned(b, s, es, i, j) && es != []
    ensures es[0].Within(b, s)
    ensures Aligned(b, s, es[1..], es[0].oldEnd, es[0].newEnd)
  {
  }

  lemma AlignedIn<T>(b: seq<T>, s: seq<T>, es: seq<Edit>, i: int, j: int)
    requires Aligned(b, s, es, i, j)
    ensures 0 <= i <= |b| && 0 <= j <= |s|
    ensures es != [] ==> es[0].Within(b, s) && i <= es[0].oldStart && j <= es[0].newStart
                         && b[i..es[0].oldStart] == s[j..es[0].newStart]
                         && Aligned(b, s, es[1..], es[0].oldEnd, es[0].newEnd)
  {
  }

  /** An edit put in front of a patch, after a gap. */
  lemma AlignedCons<T>(b: seq<T>, s: seq<T>, e: Edit, es: seq<Edit>, i: int, j: int)
    requires e.Within(b, s) && 0 <= i <= e.oldStart && 0 <= j <= e.newStart
    requires b[i..e.oldStart] == s[j..e.newStart] && Aligned(b, s, es, e.oldEnd, e.newEnd)
    ensures Aligned(b, s, [e] + es, i, j)
  {
    assert ([e] + es)[1..] == es;
  }

  /** The cursors may be moved back over equal stretches. */
  lemma AlignedBack<T>(b: seq<T>, s: seq<T>, es: seq<Edit>, i: int, j: int, i0: int, j0: int)
    requires Aligned(b, s, es, i, j)
    requires 0 <= i0 <= i && 0 <= j0 <= j && b[i0..i] == s[j0..j]
    ensures Aligned(b, s, es, i0, j0)
  {
    if es == [] {
      assert b[i0..] == b[i0..i] + b[i..];
      assert s[j0..] == s[j0..j] + s[j..];
    } else {
      var e := es[0];
      assert b[i0..e.oldStart] == b[i0..i] + b[i..e.oldStart];
      assert s[j0..e.newStart] == s[j0..j] + s[j..e.newStart];
    }
  }

  /** The cursors may be moved forward inside a gap, in step. */
  lemma AlignedForward<T>(b: seq<T>, s: seq<T>, es: seq<Edit>, i: int, j: int, n: int)
    requires Aligned(b, s, es, i, j)
    requires 0 <= n && i + n <= (if es == [] then |b| else es[0].oldStart)
    ensures j + n <= |s| && b[i..i + n] == s[j..j + n]
    ensures Aligned(b, s, es, i + n, j + n)
  {
    if es == [] {
      assert |b[i..]| == |s[j..]|;
      assert b[i..i + n] == b[i..][..n] && s[j..j + n] == s[j..][..n];
      assert b[i + n..] == b[i..][n..] && s[j + n..] == s[j..][n..];
    } else {
      var e := es[0];
      var g, h := b[i..e.oldStart], s[j..e.newStart];
      assert |g| == |h|;
      assert b[i..i + n] == g[..n] && s[j..j + n] == h[..n];
      assert b[i + n..e.oldStart] == g[n..] && s[j + n..e.newStart] == h[n..];
    }
  }

  /** A gap has the same length on both sides. */
  lemma GapLength<T>(b: seq<T>, s: seq<T>, es: seq<Edit>, i: int, j: int)
    requires Aligned(b, s, es, i, j)
    ensures es == [] ==> |b| - i == |s| - j
    ensures es != [] ==> es[0].oldStart - i == es[0].newStart - j
  {
    if es == [] {
      assert |b[i..]| == |s[j..]|;
    } else {
      assert |b[i..es[0].oldStart]| == |s[j..es[0].newStart]|;
    }
  }

  /** An edit reaches the end of one side exactly when it reaches the end of the other. */
  lemma EndsTogether<T>(b: seq<T>, s: seq<T>, es: seq<Edit>, i: int, j: int)
    requires Aligned(b, s, es, i, j) && es != []
    requires StartsInside(b, s, es)
    ensures es[0].oldEnd == |b| <==> es[0].newEnd == |s|
  {
    var rest := es[1..];
    GapLength(b, s, rest, es[0].oldEnd, es[0].newEnd);
    if rest != [] {
      assert rest[0] == es[1];
    }
  }

  /** And so for every edit of a patch. */
  lemma {:induction false} EditFacts<T>(b: seq<T>, s: seq<T>, es: seq<Edit>, i: int, j: int, k: int)
    requires Aligned(b, s, es, i, j) && StartsInside(b, s, es) && 0 <= k < |es|
    ensures es[k].Within(b, s) && es[k].oldStart < |b| && es[k].newStart < |s|
    ensures es[k].oldEnd == |b| <==> es[k].newEnd == |s|
    decreases |es|
  {
    if k == 0 {
      EndsTogether(b, s, es, i, j);
    } else {
      EditFacts(b, s, es[1..], es[0].oldEnd, es[0].newEnd, k - 1);
    }
  }

  lemma RepParts<T>(b: seq<T>, es: seq<Edit>, s: seq<T>)
    requires Rep(b, es, s)
    ensures Aligned(b, s, es, 0, 0) && StartsInside(b, s, es)
  {
  }

  // ----- scripts

  /** A stretch both sequences share, then a stretch that differs. */
  datatype Segment<T> = Segment(gap: seq<T>, before: seq<T>, after: seq<T>)

  ghost function OldOf<T>(segs: seq<Segment<T>>, tail: seq<T>): seq<T> {
    if segs == [] then tail else segs[0].gap + segs[0].before + OldOf(segs[1..], tail)
  }

  ghost function NewOf<T>(segs: seq<Segment<T>>, tail: seq<T>): seq<T> {
    if segs == [] then tail else segs[0].gap + segs[0].after + NewOf(segs[1..], tail)
  }

  /** The edits of a script that starts at `i` on one side and `j` on the other. */
  ghost function EditsOf<T>(segs: seq<Segment<T>>, i: int, j: int): seq<Edit>
    decreases |segs|
  {
    if segs == [] then []
    else
      var g := segs[0];
      var e := Edit(i + |g.gap|, i + |g.gap| + |g.before|, j + |g.gap|, j + |g.gap| + |g.after|);
      [e] + EditsOf(segs[1..], e.oldEnd, e.newEnd)
  }

  /** A script aligns the two sequences it spells out. */
  lemma {:induction false} ScriptAligned<T>(
      segs: seq<Segment<T>>, tail: seq<T>, p: seq<T>, q: seq<T>)
    ensures Aligned(p + OldOf(segs, tail), q + NewOf(segs, tail), EditsOf(segs, |p|, |q|),
                    |p|, |q|)
    decreases |segs|
  {
    if segs == [] {
      assert (p + tail)[|p|..] == tail == (q + tail)[|q|..];
    } else {
      var g := segs[0];
      var x, y := OldOf(segs[1..], tail), NewOf(segs[1..], tail);
      var p', q' := p + g.gap + g.before, q + g.gap + g.after;
      hide Aligned;
      ScriptAligned(segs[1..], tail, p', q');
      Regroup(p, g.gap, g.before, x);
      Regroup(q, g.gap, g.after, y);
      ScriptStep(g, p, q, x, y, EditsOf(segs[1..], |p'|, |q'|));
    }
  }

  lemma ScriptStep<T>(g: Segment<T>, p: seq<T>, q: seq<T>, x: seq<T>, y: seq<T>, es: seq<Edit>)
    requires var p', q' := p + g.gap + g.before, q + g.gap + g.after;
             Aligned(p' + x, q' + y, es, |p'|, |q'|)
    ensures var p', q' := p + g.gap + g.before, q + g.gap + g.after;
            Aligned(p' + x, q' + y,
                    [Edit(|p + g.gap|, |p'|, |q + g.gap|, |q'|)] + es, |p|, |q|)
  {
    var p', q' := p + g.gap + g.before, q + g.gap + g.after;
    var all := [Edit(|p + g.gap|, |p'|, |q + g.gap|, |q'|)] + es;
    assert all[1..] == es;
    assert (p' + x)[|p|..|p + g.gap|] == g.gap;
    assert (q' + y)[|q|..|q + g.gap|] == g.gap;
  }

  lemma Regroup<T>(p: seq<T>, x: seq<T>, y: seq<T>, z: seq<T>)
    ensures p + (x + y + z) == p + x + y + z
  {
  }

  /** More of what both sequences share, put in front. */
  lemma MoreInFront<T>(h: seq<T>, segs: seq<Segment<T>>, tail: seq<T>, i: int, j: int)
      returns (segs': seq<Segment<T>>, tail': seq<T>)
    ensures OldOf(segs', tail') == h + OldOf(segs, tail)
    ensures NewOf(segs', tail') == h + NewOf(segs, tail)
    ensures EditsOf(segs', i, j) == EditsOf(segs, i + |h|, j + |h|)
    ensures |segs'| == |segs|
    ensures forall k :: 0 <= k < |segs| ==>
              segs'[k].before == segs[k].before && segs'[k].after == segs[k].after
  {
    if segs == [] {
      segs', tail' := segs, h + tail;
    } else {
      var g, rest := segs[0], segs[1..];
      segs', tail' := [g.(gap := h + g.gap)] + rest, tail;
      hide *;
      assert segs == [g] + rest;
      ScriptCons(g, rest, tail, i + |h|, j + |h|);
      ScriptCons(g.(gap := h + g.gap), rest, tail, i, j);
      Regroup(h, g.gap, g.before, OldOf(rest, tail));
      Regroup(h, g.gap, g.after, NewOf(rest, tail));
    }
  }

  lemma ScriptCons<T>(g: Segment<T>, rest: seq<Segment<T>>, tail: seq<T>, i: int, j: int)
    ensures OldOf([g] + rest, tail) == g.gap + g.before + OldOf(rest, tail)
    ensures NewOf([g] + rest, tail) == g.gap + g.after + NewOf(rest, tail)
    ensures var x, y := i + |g.gap|, j + |g.gap|;
            EditsOf([g] + rest, i, j) ==
            [Edit(x, x + |g.before|, y, y + |g.after|)]
            + EditsOf(rest, x + |g.before|, y + |g.after|)
  {
    assert ([g] + rest)[1..] == rest;
  }

  /** What an edit of a script replaces is what its segment says. */
  lemma {:induction false} ScriptRows<T>(
      segs: seq<Segment<T>>, tail: seq<T>, i: int, j: int, k: int)
    requires 0 <= k < |segs|
    ensures |EditsOf(segs, i, j)| == |segs|
    ensures var e := EditsOf(segs, i, j)[k];
            && Slice(OldOf(segs, tail), e.oldStart - i, e.oldEnd - i) == segs[k].before
            && Slice(NewOf(segs, tail), e.newStart - j, e.newEnd - j) == segs[k].after
            && i <= e.oldStart && j <= e.newStart
    decreases |segs|
  {
    hide *;
    var g, rest := segs[0], segs[1..];
    var i', j' := i + |g.gap| + |g.before|, j + |g.gap| + |g.after|;
    EditCount(segs, i, j);
    assert segs == [g] + rest;
    ScriptCons(g, rest, tail, i, j);
    if k > 0 {
      ScriptRows(rest, tail, i', j', k - 1);
      var e := EditsOf(rest, i', j')[k - 1];
      SliceAfter(g.gap + g.before, OldOf(rest, tail), e.oldStart - i', e.oldEnd - i');
      SliceAfter(g.gap + g.after, NewOf(rest, tail), e.newStart - j', e.newEnd - j');
    } else {
      SliceMiddle(g.gap, g.before, OldOf(rest, tail));
      SliceMiddle(g.gap, g.after, NewOf(rest, tail));
    }
  }

  lemma SliceMiddle<T>(p: seq<T>, x: seq<T>, y: seq<T>)
    ensures Slice(p + x + y, |p|, |p| + |x|) == x
  {
  }

  lemma {:induction false} EditCount<T>(segs: seq<Segment<T>>, i: int, j: int)
    ensures |EditsOf(segs, i, j)| == |segs|
    decreases |segs|
  {
    if segs != [] {
      var g := segs[0];
      EditCount(segs[1..], i + |g.gap| + |g.before|, j + |g.gap| + |g.after|);
    }
  }

  lemma SliceAfter<T>(p: seq<T>, x: seq<T>, from: int, to: int)
    requires 0 <= from
    ensures Slice(p + x, |p| + from, |p| + to) == Slice(x, from, to)
  {
  }

  // ----- separation

  lemma SeparatedFromLower(es: seq<Edit>, from: int, lower: int)
    requires SeparatedFrom(es, from) && lower <= from
    ensures SeparatedFrom(es, lower)
  {
  }

  lemma {:induction false} SeparatedNew(es: seq<Edit>, from: int, p: int, q: int)
    requires SeparatedFrom(es, from) && 0 <= p < q < |es|
    ensures from < es[p].newStart <= es[p].newEnd < es[q].newStart
    decreases |es|
  {
    if p == 0 {
      SeparatedStarts(es[1..], es[0].newEnd, q - 1);
    } else {
      SeparatedNew(es[1..], es[0].newEnd, p - 1, q - 1);
    }
  }

  lemma {:induction false} SeparatedStarts(es: seq<Edit>, from: int, q: int)
    requires SeparatedFrom(es, from) && 0 <= q < |es|
    ensures from < es[q].newStart <= es[q].newEnd
    decreases |es|
  {
    if q > 0 {
      SeparatedStarts(es[1..], es[0].newEnd, q - 1);
    }
  }

  /** Separation on the new side is separation on the old side too. */
  lemma {:induction false} SeparatedOld<T>(b: seq<T>, s: seq<T>, es: seq<Edit>, i: int, j: int)
    requires Aligned(b, s, es, i, j) && SeparatedFrom(es, j)
    ensures SeparatedFrom(Inverse(es), i)
    decreases |es|
  {
    if es != [] {
      GapLength(b, s, es, i, j);
      SeparatedOld(b, s, es[1..], es[0].oldEnd, es[0].newEnd);
      assert Inverse(es)[1..] == Inverse(es[1..]);
    }
  }

  // ----- inverses

  /** The patch back. */
  function Inverse(es: seq<Edit>): (r: seq<Edit>)
    ensures |r| == |es|
    ensures forall k :: 0 <= k < |es| ==> r[k] == es[k].Inverse()
  {
    seq(|es|, k requires 0 <= k < |es| => es[k].Inverse())
  }

  lemma {:induction false} InverseAligned<T>(b: seq<T>, s: seq<T>, es: seq<Edit>, i: int, j: int)
    requires Aligned(b, s, es, i, j)
    ensures Aligned(s, b, Inverse(es), j, i)
    decreases |es|
  {
    if es != [] {
      InverseAligned(b, s, es[1..], es[0].oldEnd, es[0].newEnd);
      assert Inverse(es)[1..] == Inverse(es[1..]);
    }
  }

  /** The inverse of a represented patch represents the way back. */
  lemma RepInverse<T>(b: seq<T>, es: seq<Edit>, s: seq<T>)
    requires Rep(b, es, s)
    ensures Rep(s, Inverse(es), b)
  {
    InverseAligned(b, s, es, 0, 0);
    if es != [] {
      GapLength(b, s, es, 0, 0);
      AlignedAfterHead(b, s, es, 0, 0);
      SeparatedOld(b, s, es[1..], es[0].oldEnd, es[0].newEnd);
      assert Inverse(es)[1..] == Inverse(es[1..]);
    }
  }

  // ----- choosing some of the edits

  /** From `i` in `b` and `j` in `s` on, the sequence with the chosen edits made and the others
      not. */
  ghost function Mid<T>(
      b: seq<T>, s: seq<T>, es: seq<Edit>, chosen: seq<bool>, i: int, j: int): seq<T>
    requires |chosen| == |es|
    requires Aligned(b, s, es, i, j)
    decreases |es|
  {
    if es == [] then b[i..]
    else
      var e := es[0];
      b[i..e.oldStart] + Pick(b, s, e, chosen[0])
      + Mid(b, s, es[1..], chosen[1..], e.oldEnd, e.newEnd)
  }

  ghost function Pick<T>(b: seq<T>, s: seq<T>, e: Edit, chosen: bool): seq<T>
    requires e.Within(b, s)
  {
    if chosen then s[e.newStart..e.newEnd] else b[e.oldStart..e.oldEnd]
  }

  /** The edits not chosen, their old ranges moved by what the chosen ones before them added. */
  function Rest(es: seq<Edit>, chosen: seq<bool>, delta: int): seq<Edit>
    requires |chosen| == |es|
  {
    if es == [] then []
    else if chosen[0] then Rest(es[1..], chosen[1..], delta + es[0].Delta())
    else [es[0].ShiftOld(delta)] + Rest(es[1..], chosen[1..], delta)
  }

  /** The chosen edits, their new ranges moved by what the others before them did not add. */
  function Chosen(es: seq<Edit>, chosen: seq<bool>, delta: int): seq<Edit>
    requires |chosen| == |es|
  {
    if es == [] then []
    else if chosen[0] then [es[0].ShiftNew(delta)] + Chosen(es[1..], chosen[1..], delta)
    else Chosen(es[1..], chosen[1..], delta - es[0].Delta())
  }

  function Not(chosen: seq<bool>): (r: seq<bool>)
    ensures |r| == |chosen|
    ensures forall k :: 0 <= k < |chosen| ==> r[k] == !chosen[k]
  {
    seq(|chosen|, k requires 0 <= k < |chosen| => !chosen[k])
  }

  /** What lies between is turned into the new sequence by the edits not chosen. */
  lemma {:induction false} RestAligned<T>(
      b: seq<T>, s: seq<T>, es: seq<Edit>, chosen: seq<bool>, i: int, j: int, p: seq<T>)
    requires |chosen| == |es| && Aligned(b, s, es, i, j)
    ensures Aligned(p + Mid(b, s, es, chosen, i, j), s, Rest(es, chosen, |p| - i), |p|, j)
    decreases |es|
  {
    hide *;
    if es == [] {
      RestAlignedNone(b, s, es, chosen, i, j, p);
    } else {
      var e := es[0];
      MidOneStep(b, s, es, chosen, i, j, |p| - i);
      var gap, picked := b[i..e.oldStart], Pick(b, s, e, chosen[0]);
      var p' := p + gap + picked;
      var tail := Mid(b, s, es[1..], chosen[1..], e.oldEnd, e.newEnd);
      var delta := if chosen[0] then |p| - i + e.Delta() else |p| - i;
      assert |p'| - e.oldEnd == delta;
      Regroup(p, gap, picked, tail);
      RestAligned(b, s, es[1..], chosen[1..], e.oldEnd, e.newEnd, p');
      RestAlignedStep(b, s, e, chosen[0], i, j, p, tail, Rest(es[1..], chosen[1..], delta));
    }
  }

  lemma RestAlignedNone<T>(
      b: seq<T>, s: seq<T>, es: seq<Edit>, chosen: seq<bool>, i: int, j: int, p: seq<T>)
    requires es == [] && chosen == [] && Aligned(b, s, es, i, j)
    ensures Aligned(p + Mid(b, s, es, chosen, i, j), s, Rest(es, chosen, |p| - i), |p|, j)
  {
    assert (p + b[i..])[|p|..] == b[i..];
  }

  lemma MidOneStep<T>(
      b: seq<T>, s: seq<T>, es: seq<Edit>, chosen: seq<bool>, i: int, j: int, delta: int)
    requires |chosen| == |es| && Aligned(b, s, es, i, j) && es != []
    ensures var e := es[0];
            && e.Within(b, s) && Aligned(b, s, es[1..], e.oldEnd, e.newEnd)
            && 0 <= i <= e.oldStart <= e.oldEnd <= |b| && 0 <= j <= e.newStart <= e.newEnd <= |s|
            && b[i..e.oldStart] == s[j..e.newStart]
            && Mid(b, s, es, chosen, i, j) ==
               b[i..e.oldStart] + Pick(b, s, e, chosen[0])
               + Mid(b, s, es[1..], chosen[1..], e.oldEnd, e.newEnd)
            && |Pick(b, s, e, chosen[0])| ==
               (if chosen[0] then e.oldEnd - e.oldStart + e.Delta() else e.oldEnd - e.oldStart)
            && Rest(es, chosen, delta) ==
               (if chosen[0] then Rest(es[1..], chosen[1..], delta + e.Delta())
                else [e.ShiftOld(delta)] + Rest(es[1..], chosen[1..], delta))
  {
  }

  lemma RestAlignedStep<T>(
      b: seq<T>, s: seq<T>, e: Edit, chosen: bool, i: int, j: int, p: seq<T>, tail: seq<T>,
      rest: seq<Edit>)
    requires e.Within(b, s) && 0 <= i <= e.oldStart && 0 <= j <= e.newStart
    requires b[i..e.oldStart] == s[j..e.newStart]
    requires var p' := p + b[i..e.oldStart] + Pick(b, s, e, chosen);
             Aligned(p' + tail, s, rest, |p'|, e.newEnd)
    ensures Aligned(p + b[i..e.oldStart] + Pick(b, s, e, chosen) + tail, s,
                    if chosen then rest else [e.ShiftOld(|p| - i)] + rest, |p|, j)
  {
    hide Aligned;
    var g, x := b[i..e.oldStart], Pick(b, s, e, chosen);
    var p' := p + g + x;
    PiecesAt(p, g, x, tail);
    if chosen {
      assert s[j..e.newEnd] == s[j..e.newStart] + s[e.newStart..e.newEnd];
      AlignedBack(p' + tail, s, rest, |p'|, e.newEnd, |p|, j);
    } else {
      AlignedCons(p' + tail, s, e.ShiftOld(|p| - i), rest, |p|, j);
    }
  }

  lemma PiecesAt<T>(p: seq<T>, g: seq<T>, x: seq<T>, tail: seq<T>)
    ensures var whole := p + g + x + tail;
            && whole[|p|..|p + g|] == g && whole[|p|..|p + g + x|] == g + x
  {
  }

  lemma {:induction false} RestSeparated(es: seq<Edit>, chosen: seq<bool>, delta: int, from: int)
    requires |chosen| == |es| && SeparatedFrom(es, from)
    ensures SeparatedFrom(Rest(es, chosen, delta), from)
    decreases |es|
  {
    if es != [] {
      if chosen[0] {
        RestSeparated(es[1..], chosen[1..], delta + es[0].Delta(), es[0].newEnd);
        SeparatedFromLower(Rest(es, chosen, delta), es[0].newEnd, from);
      } else {
        RestSeparated(es[1..], chosen[1..], delta, es[0].newEnd);
        assert Rest(es, chosen, delta)[1..] == Rest(es[1..], chosen[1..], delta);
      }
    }
  }

  /** Every edit left starts before the end of what lies between, `size` elements in. */
  lemma {:induction false} RestStartsInside<T>(
      b: seq<T>, s: seq<T>, es: seq<Edit>, chosen: seq<bool>, i: int, j: int, size: int, k: int)
    requires |chosen| == |es| && Aligned(b, s, es, i, j) && StartsInside(b, s, es)
    requires 0 <= k < |Rest(es, chosen, size - i)|
    ensures Rest(es, chosen, size - i)[k].oldStart < size + |Mid(b, s, es, chosen, i, j)|
    ensures Rest(es, chosen, size - i)[k].newStart < |s|
    decreases |es|
  {
    var e := es[0];
    var size' := size + (e.oldStart - i) + |Pick(b, s, e, chosen[0])|;
    if chosen[0] {
      RestStartsInside(b, s, es[1..], chosen[1..], e.oldEnd, e.newEnd, size', k);
    } else if k > 0 {
      RestStartsInside(b, s, es[1..], chosen[1..], e.oldEnd, e.newEnd, size', k - 1);
    } else if e.oldStart == e.oldEnd {
      MidNotEmpty(b, s, es[1..], chosen[1..], e.oldEnd, e.newEnd);
    }
  }

  /** Before an end that no edit starts on, something always remains. */
  lemma MidNotEmpty<T>(b: seq<T>, s: seq<T>, es: seq<Edit>, chosen: seq<bool>, i: int, j: int)
    requires |chosen| == |es| && Aligned(b, s, es, i, j) && StartsInside(b, s, es) && i < |b|
    ensures |Mid(b, s, es, chosen, i, j)| > 0
    decreases |es|
  {
    if es != [] && es[0].oldStart == i && |Pick(b, s, es[0], chosen[0])| == 0 {
      EndsTogether(b, s, es, i, j);
      MidNotEmpty(b, s, es[1..], chosen[1..], es[0].oldEnd, es[0].newEnd);
    }
  }

  /** The split lemma: choosing some edits leaves a represented patch of the others. */
  lemma SplitRep<T>(b: seq<T>, s: seq<T>, es: seq<Edit>, chosen: seq<bool>)
    requires |chosen| == |es| && Rep(b, es, s)
    ensures Rep(Mid(b, s, es, chosen, 0, 0), Rest(es, chosen, 0), s)
  {
    RestAligned(b, s, es, chosen, 0, 0, []);
    assert [] + Mid(b, s, es, chosen, 0, 0) == Mid(b, s, es, chosen, 0, 0);
    RestSeparated(es, chosen, 0, -1);
    forall k | 0 <= k < |Rest(es, chosen, 0)|
      ensures Rest(es, chosen, 0)[k].oldStart < |Mid(b, s, es, chosen, 0, 0)|
      ensures Rest(es, chosen, 0)[k].newStart < |s|
    {
      RestStartsInside(b, s, es, chosen, 0, 0, 0, k);
    }
  }

  /** Seen from the other side: making the chosen edits is unmaking the others. */
  lemma {:induction false} MidFromTheOtherSide<T>(
      b: seq<T>, s: seq<T>, es: seq<Edit>, chosen: seq<bool>, i: int, j: int)
    requires |chosen| == |es| && Aligned(b, s, es, i, j)
    ensures Aligned(s, b, Inverse(es), j, i)
    ensures Mid(b, s, es, chosen, i, j) == Mid(s, b, Inverse(es), Not(chosen), j, i)
    decreases |es|
  {
    InverseAligned(b, s, es, i, j);
    if es != [] {
      MidFromTheOtherSide(b, s, es[1..], chosen[1..], es[0].oldEnd, es[0].newEnd);
      assert Inverse(es)[1..] == Inverse(es[1..]);
      assert Not(chosen)[1..] == Not(chosen[1..]);
    }
  }

  lemma {:induction false} InverseOfRest(es: seq<Edit>, chosen: seq<bool>, delta: int)
    requires |chosen| == |es|
    ensures Inverse(Rest(Inverse(es), Not(chosen), delta)) == Chosen(es, chosen, delta)
  {
    if es != [] {
      assert Inverse(es)[1..] == Inverse(es[1..]);
      assert Not(chosen)[1..] == Not(chosen[1..]);
      InverseOfRest(es[1..], chosen[1..], if chosen[0] then delta else delta - es[0].Delta());
    }
  }

  /** And the old sequence is turned into what lies between by exactly the chosen edits. */
  lemma ChosenRep<T>(b: seq<T>, s: seq<T>, es: seq<Edit>, chosen: seq<bool>)
    requires |chosen| == |es| && Rep(b, es, s)
    ensures Rep(b, Chosen(es, chosen, 0), Mid(b, s, es, chosen, 0, 0))
  {
    RepInverse(b, es, s);
    SplitRep(s, b, Inverse(es), Not(chosen));
    MidFromTheOtherSide(b, s, es, chosen, 0, 0);
    InverseOfRest(es, chosen, 0);
    RepInverse(Mid(b, s, es, chosen, 0, 0), Rest(Inverse(es), Not(chosen), 0), b);
  }

  /** Choosing every edit gives the new sequence and leaves none. */
  lemma {:induction false} ChooseAll<T>(
      b: seq<T>, s: seq<T>, es: seq<Edit>, chosen: seq<bool>, i: int, j: int, delta: int)
    requires |chosen| == |es| && Aligned(b, s, es, i, j)
    requires forall k :: 0 <= k < |chosen| ==> chosen[k]
    ensures Mid(b, s, es, chosen, i, j) == s[j..]
    ensures Rest(es, chosen, delta) == []
    decreases |es|
  {
    if es != [] {
      var e := es[0];
      ChooseAll(b, s, es[1..], chosen[1..], e.oldEnd, e.newEnd, delta + e.Delta());
      assert s[j..] == s[j..e.newStart] + s[e.newStart..e.newEnd] + s[e.newEnd..];
    }
  }

  /** Choosing none gives the old sequence. */
  lemma {:induction false} ChooseNone<T>(
      b: seq<T>, s: seq<T>, es: seq<Edit>, chosen: seq<bool>, i: int, j: int)
    requires |chosen| == |es| && Aligned(b, s, es, i, j)
    requires forall k :: 0 <= k < |chosen| ==> !chosen[k]
    ensures Mid(b, s, es, chosen, i, j) == b[i..]
    decreases |es|
  {
    if es != [] {
      var e := es[0];
      ChooseNone(b, s, es[1..], chosen[1..], e.oldEnd, e.newEnd);
      assert b[i..] == b[i..e.oldStart] + b[e.oldStart..e.oldEnd] + b[e.oldEnd..];
    }
  }
}

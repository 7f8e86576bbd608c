/** Following a transcript that only grows.

    A pass reads from a cursor in windows, under a cap that grows until a whole line fits, and
    reports where the last complete line ended.  The main results: over any interleaving of
    appends and passes every byte before the cursor has been delivered exactly once, in order
    and in whole lines; and passes always make progress and stop after the last newline. */
module Transcript {
  import opened Prelude
  import opened Texts

  /** How many bytes of a first line are fingerprinted at most. */
  const IDENTITY_BYTES: nat := 4096

  // ----- complete lines

  ghost predicate NoNewline(t: string, from: int) {
    forall i :: 0 <= from <= i < |t| ==> t[i] != '\n'
  }

  /** The length of the longest prefix that ends in a newline. */
  function CompleteLength(t: string): (n: nat)
    ensures n <= |t| && NoNewline(t, n)
    ensures n > 0 ==> t[n - 1] == '\n'
  {
    if t == "" then 0
    else if t[|t| - 1] == '\n' then |t|
    else CompleteLength(t[..|t| - 1])
  }

  /** And it is the only length like that. */
  lemma CompleteLengthIs(t: string, n: nat)
    requires n <= |t| && NoNewline(t, n) && (n > 0 ==> t[n - 1] == '\n')
    ensures CompleteLength(t) == n
  {
    var m := CompleteLength(t);
    assert m > 0 ==> t[m - 1] == '\n';
  }

  function Concat(pieces: seq<string>): string {
    if pieces == [] then "" else pieces[0] + Concat(pieces[1..])
  }

  lemma {:induction false} ConcatSnoc(pieces: seq<string>, p: string)
    ensures Concat(pieces + [p]) == Concat(pieces) + p
  {
    if pieces == [] {
      assert pieces + [p] == [p];
      assert Concat([p]) == p + Concat([]);
    } else {
      ConcatSnoc(pieces[1..], p);
      assert (pieces + [p])[1..] == pieces[1..] + [p];
    }
  }

  /** A piece as it is handed over: whole lines, and beyond its first line no more than one
      window. */
  predicate PieceOk(p: string, window: nat) {
    p != "" && p[|p| - 1] == '\n' && |p| <= FirstNewline(p) + window
  }

  ghost predicate PiecesOk(pieces: seq<string>, window: nat) {
    forall k :: 0 <= k < |pieces| ==> PieceOk(pieces[k], window)
  }

  lemma PiecesOkSnoc(pieces: seq<string>, p: string, window: nat)
    requires PiecesOk(pieces, window) && PieceOk(p, window)
    ensures PiecesOk(pieces + [p], window)
  {
  }

  /** Where the reading stands: everything before `consumed` has been handed over, and what has
      been read since has no newline yet. */
  ghost predicate ReadState(data: string, window: nat, consumed: nat, at: nat, buffer: string,
                            pieces: seq<string>)
  {
    && consumed <= at <= |data| && buffer == data[consumed..at] && NoNewline(buffer, 0)
    && (consumed > 0 ==> data[consumed - 1] == '\n')
    && Concat(pieces) == data[..consumed]
    && PiecesOk(pieces, window)
  }

  /** Reads everything and hands over the complete lines a window at a time; the bytes after the
      last newline seen are carried into the next window. */
  method ReadCompleteLines(data: string, window: nat) returns (consumed: nat, pieces: seq<string>)
    ensures window > 0 ==> consumed == CompleteLength(data)
    ensures window == 0 ==> consumed == 0
    ensures consumed <= |data| && Concat(pieces) == data[..consumed]
    ensures PiecesOk(pieces, window)
  {
    hide *;
    var buffer, at := "", 0;
    consumed, pieces := 0, [];
    ReadStarts(data, window);
    while window > 0 && at < |data|
      invariant at <= |data| && ReadState(data, window, consumed, at, buffer, pieces)
      invariant window == 0 ==> consumed == 0
      decreases |data| - at
    {
      var read := if at + window <= |data| then data[at..at + window] else data[at..];
      ghost var carried := buffer;
      buffer := buffer + read;
      var end := CompleteLength(buffer);
      if end == 0 {
        ReadNoNewline(data, window, consumed, at, carried, pieces, read);
      } else {
        ReadPiece(data, window, consumed, at, carried, pieces, read, end);
        pieces := pieces + [buffer[..end]];
        consumed := consumed + end;
        buffer := buffer[end..];
      }
      at := at + |read|;
    }
    ReadEnds(data, window, consumed, at, buffer, pieces);
  }

  lemma ReadStarts(data: string, window: nat)
    ensures ReadState(data, window, 0, 0, "", [])
  {
  }

  lemma ReadEnds(data: string, window: nat, consumed: nat, at: nat, buffer: string,
                 pieces: seq<string>)
    requires ReadState(data, window, consumed, at, buffer, pieces)
    ensures at == |data| ==> consumed == CompleteLength(data)
    ensures consumed <= |data| && Concat(pieces) == data[..consumed]
    ensures PiecesOk(pieces, window)
  {
    if at == |data| {
      forall i | consumed <= i < |data|
        ensures data[i] != '\n'
      {
        assert buffer[i - consumed] == data[i];
      }
      CompleteLengthIs(data, consumed);
    }
  }

  lemma ReadNoNewline(data: string, window: nat, consumed: nat, at: nat, buffer: string,
                      pieces: seq<string>, read: string)
    requires ReadState(data, window, consumed, at, buffer, pieces)
    requires at + |read| <= |data| && read == data[at..at + |read|]
    requires CompleteLength(buffer + read) == 0
    ensures ReadState(data, window, consumed, at + |read|, buffer + read, pieces)
  {
    hide *;
    ReadParts(data, window, consumed, at, buffer, pieces);
    SlicesMeet(data, consumed, at, at + |read|);
    CompleteParts(buffer + read);
    ReadFrom(data, window, consumed, at + |read|, buffer + read, pieces);
  }

  lemma ReadPiece(data: string, window: nat, consumed: nat, at: nat, buffer: string,
                  pieces: seq<string>, read: string, end: nat)
    requires ReadState(data, window, consumed, at, buffer, pieces)
    requires at + |read| <= |data| && read == data[at..at + |read|] && |read| <= window
    requires 0 < end == CompleteLength(buffer + read)
    ensures end <= |buffer + read|
    ensures ReadState(data, window, consumed + end, at + |read|, (buffer + read)[end..],
                      pieces + [(buffer + read)[..end]])
  {
    hide *;
    var at' := at + |read|;
    ReadParts(data, window, consumed, at, buffer, pieces);
    CompleteParts(buffer + read);
    PieceFits(buffer, read, end, window);
    SlicesMeet(data, consumed, at, at');
    SliceParts(data, consumed, at', end);
    PieceTaken(data, window, consumed, at', pieces, (buffer + read)[..end], (buffer + read)[end..]);
  }

  lemma PieceTaken(data: string, window: nat, consumed: nat, at: nat, pieces: seq<string>,
                   piece: string, tail: string)
    requires consumed + |piece| <= at <= |data| && tail == data[consumed + |piece|..at]
    requires Concat(pieces) == data[..consumed] && data[..consumed] + piece == data[..consumed + |piece|]
    requires PiecesOk(pieces, window)
    requires PieceOk(piece, window) && NoNewline(tail, 0)
    requires piece != "" && data[consumed + |piece| - 1] == '\n'
    ensures ReadState(data, window, consumed + |piece|, at, tail, pieces + [piece])
  {
    hide *;
    ConcatSnoc(pieces, piece);
    PiecesOkSnoc(pieces, piece, window);
    ReadFrom(data, window, consumed + |piece|, at, tail, pieces + [piece]);
  }

  lemma ReadParts(data: string, window: nat, consumed: nat, at: nat, buffer: string,
                  pieces: seq<string>)
    requires ReadState(data, window, consumed, at, buffer, pieces)
    ensures consumed <= at <= |data| && buffer == data[consumed..at] && NoNewline(buffer, 0)
    ensures consumed > 0 ==> data[consumed - 1] == '\n'
    ensures Concat(pieces) == data[..consumed]
    ensures PiecesOk(pieces, window)
  {
  }

  lemma ReadFrom(data: string, window: nat, consumed: nat, at: nat, buffer: string,
                 pieces: seq<string>)
    requires consumed <= at <= |data| && buffer == data[consumed..at] && NoNewline(buffer, 0)
    requires consumed > 0 ==> data[consumed - 1] == '\n'
    requires Concat(pieces) == data[..consumed]
    requires PiecesOk(pieces, window)
    ensures ReadState(data, window, consumed, at, buffer, pieces)
  {
  }

  lemma SlicesMeet(data: string, a: nat, b: nat, c: nat)
    requires a <= b <= c <= |data|
    ensures data[a..b] + data[b..c] == data[a..c]
  {
  }

  lemma SliceParts(data: string, a: nat, c: nat, end: nat)
    requires a <= c <= |data| && 0 < end <= c - a
    ensures data[a..c][end..] == data[a + end..c]
    ensures data[..a] + data[a..c][..end] == data[..a + end]
    ensures data[a..c][end - 1] == data[a + end - 1]
  {
  }

  lemma CompleteParts(t: string)
    ensures var n := CompleteLength(t);
            n <= |t| && NoNewline(t[n..], 0) && (n == 0 ==> NoNewline(t, 0)) && (n > 0 ==> t[n - 1] == '\n')
  {
  }

  /** A piece starts with what was carried over, which has no newline. */
  lemma PieceFits(carried: string, read: string, end: nat, window: nat)
    requires NoNewline(carried, 0) && |read| <= window
    requires 0 < end == CompleteLength(carried + read)
    ensures PieceOk((carried + read)[..end], window)
  {
    var piece := (carried + read)[..end];
    var k := FirstNewline(piece);
    assert piece[end - 1] == '\n';
    assert k < |piece| ==> piece[k] == '\n';
    assert forall i :: 0 <= i < |carried| && i < end ==> piece[i] == carried[i];
    assert k == |piece| || k >= |carried|;
  }

  // ----- one pass

  /** What a pass reports.  `pieces` are the complete lines it handed over. */
  datatype Pass = Pass(scannedTo: nat, restarted: bool, identity: Option<string>, moreToRead: bool,
                       pieces: seq<string>)

  /** What tells one file from another at the same path: the bytes of its first line, once that
      line is whole or long enough.  The fingerprint kept of them is a function of these bytes. */
  function HeadIdentity(contents: string): Option<string> {
    var head := contents[..Min(|contents|, IDENTITY_BYTES)];
    var end := FirstNewline(head);
    if end < |head| then Some(head[..end])
    else if |head| >= IDENTITY_BYTES then Some(head)
    else None
  }

  /** The budget the pass ends with: doubled until a whole line fits or all there is is read. */
  function FinalBudget(rest: string, window: nat, budget: nat): (final: nat)
    requires budget <= |rest| && (budget == 0 ==> rest == "")
    ensures budget <= final <= |rest|
    decreases |rest| - budget
  {
    if budget >= |rest| || (window > 0 && CompleteLength(rest[..budget]) > 0) then budget
    else FinalBudget(rest, window, Min(2 * budget, |rest|))
  }

  function Start(contents: string, from: nat): nat {
    if from > |contents| then 0 else from
  }

  function FirstBudget(rest: string, maxBytes: nat): nat {
    Min(|rest|, Max(maxBytes, 1))
  }

  /** Where a pass ends and whether it was cut short, in terms of the file alone. */
  function ScannedTo(contents: string, from: nat, window: nat, maxBytes: nat): (to: nat)
    ensures Start(contents, from) <= to <= |contents|
  {
    var start := Start(contents, from);
    var rest := contents[start..];
    var budget := FinalBudget(rest, window, FirstBudget(rest, maxBytes));
    start + if window > 0 then CompleteLength(rest[..budget]) else 0
  }

  function CutShort(contents: string, from: nat, window: nat, maxBytes: nat): bool {
    var rest := contents[Start(contents, from)..];
    FinalBudget(rest, window, FirstBudget(rest, maxBytes)) < |rest|
  }

  /** One pass over the file as it is, or nothing when there is no file. */
  method ReadTranscriptProgress(file: Option<string>, from: nat, window: nat, maxBytes: nat)
      returns (pass: Pass)
    ensures file.None? ==> pass == Pass(from, false, None, false, [])
    ensures file.Some? ==>
              && pass.scannedTo == ScannedTo(file.value, from, window, maxBytes)
              && pass.moreToRead == CutShort(file.value, from, window, maxBytes)
              && pass.restarted == (from > |file.value|)
              && pass.identity == HeadIdentity(file.value)
              && Concat(pass.pieces) == file.value[Start(file.value, from)..pass.scannedTo]
              && PiecesOk(pass.pieces, window)
  {
    hide *;
    if file.None? {
      return Pass(from, false, None, false, []);
    }
    var contents := file.value;
    var restarted := from > |contents|;
    var start := if restarted then 0 else from;
    var rest := contents[start..];
    var first := Min(|rest|, Max(maxBytes, 1));
    PassUnfolds(contents, from, window, maxBytes);
    var budget, read, pieces := ReadFirstLines(rest, window, first);
    assert rest[..read] == contents[start..start + read];
    pass := Pass(start + read, restarted, HeadIdentity(contents), budget < |rest|, pieces);
  }

  /** Reads under a cap that doubles until a whole line fits or everything is read. */
  method ReadFirstLines(rest: string, window: nat, first: nat)
      returns (budget: nat, read: nat, pieces: seq<string>)
    requires first <= |rest| && (first == 0 ==> rest == "")
    ensures budget == FinalBudget(rest, window, first) && budget <= |rest|
    ensures read == (if window > 0 then CompleteLength(rest[..budget]) else 0)
    ensures read <= budget && Concat(pieces) == rest[..read] && PiecesOk(pieces, window)
  {
    hide *;
    budget := first;
    read, pieces := ReadCompleteLines(rest[..budget], window);
    while !(read > 0 || budget >= |rest|)
      invariant budget <= |rest| && (budget == 0 ==> rest == "")
      invariant FinalBudget(rest, window, budget) == FinalBudget(rest, window, first)
      invariant read == (if window > 0 then CompleteLength(rest[..budget]) else 0)
      invariant read <= budget && Concat(pieces) == rest[..budget][..read]
      invariant PiecesOk(pieces, window)
      decreases |rest| - budget
    {
      BudgetStep(rest, window, budget);
      budget := Min(2 * budget, |rest|);
      read, pieces := ReadCompleteLines(rest[..budget], window);
    }
    BudgetStep(rest, window, budget);
    assert rest[..budget][..read] == rest[..read];
  }

  lemma BudgetStep(rest: string, window: nat, budget: nat)
    requires budget <= |rest| && (budget == 0 ==> rest == "")
    ensures FinalBudget(rest, window, budget) ==
            if budget >= |rest| || (window > 0 && CompleteLength(rest[..budget]) > 0) then budget
            else FinalBudget(rest, window, Min(2 * budget, |rest|))
  {
  }

  lemma PassUnfolds(contents: string, from: nat, window: nat, maxBytes: nat)
    ensures var start := if from > |contents| then 0 else from;
            var rest := contents[start..];
            var first := Min(|rest|, Max(maxBytes, 1));
            && first <= |rest| && (first == 0 ==> rest == "")
            && Start(contents, from) == start
            && var budget := FinalBudget(rest, window, first);
               && ScannedTo(contents, from, window, maxBytes) ==
                  start + (if window > 0 then CompleteLength(rest[..budget]) else 0)
               && CutShort(contents, from, window, maxBytes) == (budget < |rest|)
  {
  }

  // ----- progress and bounds

  lemma {:induction false} BudgetFacts(rest: string, window: nat, budget: nat)
    requires window > 0 && budget <= |rest| && (budget == 0 ==> rest == "")
    ensures var final := FinalBudget(rest, window, budget);
            && (final < |rest| ==> CompleteLength(rest[..final]) > 0)
            && (final > budget ==> FirstNewline(rest) < |rest| ==> final <= 2 * FirstNewline(rest))
            && (FirstNewline(rest) < |rest| ==> CompleteLength(rest[..final]) > 0)
    decreases |rest| - budget
  {
    var n := FirstNewline(rest);
    NewlineSeen(rest, budget);
    if !(budget >= |rest| || CompleteLength(rest[..budget]) > 0) {
      BudgetFacts(rest, window, Min(2 * budget, |rest|));
    }
  }

  /** A prefix holds a whole line exactly when it reaches past the first newline. */
  lemma NewlineSeen(rest: string, budget: nat)
    requires budget <= |rest|
    ensures FirstNewline(rest) < budget <==> CompleteLength(rest[..budget]) > 0
  {
    var n, c := FirstNewline(rest), CompleteLength(rest[..budget]);
    if n < budget {
      assert rest[..budget][n] == '\n';
    }
    if c > 0 {
      FirstNewlineIsFirst(rest, c - 1);
    }
  }

  /** A pass advances whenever a whole unread line exists, never by more than the larger of its
      cap and twice that line; one that reports more to read has advanced; one that does not
      ends after the last newline. */
  lemma PassProgress(contents: string, from: nat, window: nat, maxBytes: nat)
    requires window > 0 && from <= |contents|
    ensures var rest, to := contents[from..], ScannedTo(contents, from, window, maxBytes);
            var line := FirstNewline(rest) + 1;
            && (line <= |rest| ==> from < to <= from + Max(Max(maxBytes, 1), 2 * line))
            && (line > |rest| ==> to == from)
            && (CutShort(contents, from, window, maxBytes) ==> from < to)
            && (!CutShort(contents, from, window, maxBytes) ==> to == from + CompleteLength(rest))
  {
    var rest := contents[from..];
    var first := Min(|rest|, Max(maxBytes, 1));
    PassUnfolds(contents, from, window, maxBytes);
    BudgetFacts(rest, window, first);
    var final := FinalBudget(rest, window, first);
    NewlineSeen(rest, final);
    hide FinalBudget, CompleteLength, FirstNewline, ScannedTo, CutShort;
    assert final == |rest| ==> rest[..final] == rest;
  }

  /** The window changes nothing but how the lines are cut into pieces. */
  function Doubled(cap: nat, times: nat): nat {
    if times == 0 then cap else 2 * Doubled(cap, times - 1)
  }

  lemma {:induction false} DoubledOnce(cap: nat, times: nat)
    ensures Doubled(2 * cap, times) == Doubled(cap, times + 1)
  {
    if times > 0 {
      DoubledOnce(cap, times - 1);
    }
  }

  /** The final budget is the first one doubled as often as it takes, and no oftener, for a newline
      to come in sight, or all there is. */
  lemma {:induction false} BudgetDoubles(rest: string, window: nat, budget: nat) returns (times: nat)
    requires window > 0 && budget <= |rest| && (budget == 0 ==> rest == "")
    ensures FinalBudget(rest, window, budget) == Min(Doubled(budget, times), |rest|)
    ensures times > 0 ==> Doubled(budget, times - 1) <= FirstNewline(rest) && Doubled(budget, times - 1) < |rest|
    decreases |rest| - budget
  {
    hide CompleteLength, FirstNewline;
    BudgetStep(rest, window, budget);
    NewlineSeen(rest, budget);
    hide FinalBudget;
    if budget >= |rest| || CompleteLength(rest[..budget]) > 0 {
      times := 0;
    } else if 2 * budget >= |rest| {
      BudgetStep(rest, window, |rest|);
      times := 1;
      assert Doubled(budget, 1) == 2 * budget && Doubled(budget, 0) == budget;
    } else {
      times := BudgetDoubles(rest, window, 2 * budget);
      DoubledOnce(budget, times);
      if times > 0 {
        DoubledOnce(budget, times - 1);
      }
      times := times + 1;
    }
  }

  /** A pass delivers every complete line under the cap, doubled as often as the first unread line
      makes it. */
  lemma PassReadsTheCap(contents: string, from: nat, window: nat, maxBytes: nat) returns (times: nat)
    requires window > 0 && from <= |contents|
    ensures var rest, cap := contents[from..], Max(maxBytes, 1);
            && ScannedTo(contents, from, window, maxBytes)
               == from + CompleteLength(rest[..Min(Doubled(Min(|rest|, cap), times), |rest|)])
            && (times > 0 ==> Doubled(Min(|rest|, cap), times - 1) <= FirstNewline(rest))
  {
    hide CompleteLength, FirstNewline;
    var rest := contents[from..];
    times := BudgetDoubles(rest, window, FirstBudget(rest, maxBytes));
    hide FinalBudget, Doubled;
  }

  /** A file shorter than the cursor is read as from its top. */
  lemma RestartsAtTheTop(contents: string, from: nat, window: nat, maxBytes: nat)
    requires from > |contents| && window > 0
    ensures ScannedTo(contents, from, window, maxBytes) == ScannedTo(contents, 0, window, maxBytes)
    ensures CutShort(contents, from, window, maxBytes) == CutShort(contents, 0, window, maxBytes)
    ensures Start(contents, from) == 0 && AtLineStart(contents, ScannedTo(contents, from, window, maxBytes))
  {
    PassKeepsLineStart(contents, 0, window, maxBytes);
    hide FinalBudget, CompleteLength, AtLineStart;
  }

  /** Whether there is more to read: not when everything unread fits the cap or has no newline, and
      always when a whole line fits the cap and not everything does. */
  lemma MoreToRead(contents: string, from: nat, window: nat, maxBytes: nat)
    requires window > 0 && from <= |contents|
    ensures var rest, cap := contents[from..], Max(maxBytes, 1);
            && (|rest| <= cap ==> !CutShort(contents, from, window, maxBytes))
            && (FirstNewline(rest) == |rest| ==> !CutShort(contents, from, window, maxBytes))
            && (FirstNewline(rest) < cap < |rest| ==> CutShort(contents, from, window, maxBytes))
  {
    hide CompleteLength, FirstNewline;
    var rest := contents[from..];
    var first := FirstBudget(rest, maxBytes);
    BudgetStep(rest, window, first);
    NewlineSeen(rest, first);
    NewlineSeen(rest, FinalBudget(rest, window, first));
    BudgetFacts(rest, window, first);
    hide FinalBudget;
  }

  lemma {:induction false} WindowIndependent(
      contents: string, from: nat, window: nat, window': nat, maxBytes: nat)
    requires window > 0 && window' > 0
    ensures ScannedTo(contents, from, window, maxBytes)
            == ScannedTo(contents, from, window', maxBytes)
    ensures CutShort(contents, from, window, maxBytes) == CutShort(contents, from, window', maxBytes)
  {
    var rest := contents[Start(contents, from)..];
    SameBudget(rest, window, window', FirstBudget(rest, maxBytes));
  }

  lemma {:induction false} SameBudget(rest: string, window: nat, window': nat, budget: nat)
    requires window > 0 && window' > 0 && budget <= |rest| && (budget == 0 ==> rest == "")
    ensures FinalBudget(rest, window, budget) == FinalBudget(rest, window', budget)
    decreases |rest| - budget
  {
    if budget < |rest| {
      SameBudget(rest, window, window', Min(2 * budget, |rest|));
    }
  }

  ghost predicate AtLineStart(t: string, at: nat) {
    at <= |t| && (at > 0 ==> t[at - 1] == '\n')
  }

  /** A pass that starts at the start of a line ends at one, and then the lines from one to the
      other are all it handed over. */
  lemma PassKeepsLineStart(contents: string, from: nat, window: nat, maxBytes: nat)
    requires window > 0 && AtLineStart(contents, from)
    ensures AtLineStart(contents, ScannedTo(contents, from, window, maxBytes))
    ensures !CutShort(contents, from, window, maxBytes) ==>
              ScannedTo(contents, from, window, maxBytes) == CompleteLength(contents)
  {
    hide *;
    AtLineStartMeans(contents, from);
    var rest := contents[from..];
    PassUnfolds(contents, from, window, maxBytes);
    var final := FinalBudget(rest, window, Min(|rest|, Max(maxBytes, 1)));
    LinesFrom(contents, from, final);
  }

  lemma AtLineStartMeans(t: string, at: nat)
    requires AtLineStart(t, at)
    ensures at <= |t|
  {
  }

  lemma LinesFrom(contents: string, from: nat, budget: nat)
    requires AtLineStart(contents, from) && budget <= |contents| - from
    ensures var n := CompleteLength(contents[from..][..budget]);
            && AtLineStart(contents, from + n)
            && (budget == |contents| - from ==> from + n == CompleteLength(contents))
  {
    var rest := contents[from..];
    var n := CompleteLength(rest[..budget]);
    assert n > 0 ==> contents[from + n - 1] == rest[..budget][n - 1];
    if budget == |rest| {
      forall i | from + n <= i < |contents|
        ensures contents[i] != '\n'
      {
        assert contents[i] == rest[..budget][i - from];
      }
      CompleteLengthIs(contents, from + n);
    }
  }

  /** Repeating passes while they report more, on a file that stays as it is. */
  function Drained(contents: string, from: nat, window: nat, maxBytes: nat): (to: nat)
    requires window > 0 && from <= |contents|
    decreases |contents| - from
  {
    PassProgress(contents, from, window, maxBytes);
    var to := ScannedTo(contents, from, window, maxBytes);
    if CutShort(contents, from, window, maxBytes) then Drained(contents, to, window, maxBytes)
    else to
  }

  /** It ends, exactly after the last newline. */
  lemma {:induction false} DrainedIsComplete(contents: string, from: nat, window: nat, maxBytes: nat)
    requires window > 0 && AtLineStart(contents, from)
    ensures Drained(contents, from, window, maxBytes) == CompleteLength(contents)
    decreases |contents| - from
  {
    PassProgress(contents, from, window, maxBytes);
    PassKeepsLineStart(contents, from, window, maxBytes);
    if CutShort(contents, from, window, maxBytes) {
      DrainedIsComplete(contents, ScannedTo(contents, from, window, maxBytes), window, maxBytes);
    }
  }

  // ----- following the file

  /** A reader and the file it follows: where it will resume, all it was handed so far, and the
      last identity reported. */
  datatype Reader = Reader(file: string, cursor: nat, delivered: string, identity: Option<string>)

  datatype Event = Append(bytes: string) | ReadPass(window: nat, maxBytes: nat) | Missing

  /** One step: the file grows, a pass resumes from the cursor, or the file is not there. */
  ghost function Step(r: Reader, e: Event): Reader {
    match e
    case Append(bytes) => r.(file := r.file + bytes)
    case ReadPass(window, maxBytes) =>
      var start, to := Start(r.file, r.cursor), ScannedTo(r.file, r.cursor, window, maxBytes);
      Reader(r.file, to, r.delivered + r.file[start..to], HeadIdentity(r.file))
    case Missing => r
  }

  ghost predicate Follows(r: Reader) {
    && AtLineStart(r.file, r.cursor)
    && r.delivered == r.file[..r.cursor]
    && (r.identity.Some? ==> HeadIdentity(r.file) == r.identity)
  }

  /** The identity of a growing file, once known, stays. */
  lemma IdentityStays(file: string, bytes: string)
    requires HeadIdentity(file).Some?
    ensures HeadIdentity(file + bytes) == HeadIdentity(file)
  {
    var head := file[..Min(|file|, IDENTITY_BYTES)];
    var head' := (file + bytes)[..Min(|file + bytes|, IDENTITY_BYTES)];
    if |file| >= IDENTITY_BYTES {
      assert head' == head;
    } else {
      assert head == file;
      var more := head'[|head|..];
      assert head' == head + more;
      FirstNewlineKept(head, more);
      assert head'[..FirstNewline(head)] == head[..FirstNewline(head)];
    }
  }

  /** The identity is the first line once that is whole, cut at the bytes that count. */
  lemma IdentityIs(file: string)
    ensures HeadIdentity(file) ==
            if FirstNewline(file) < |file| && FirstNewline(file) < IDENTITY_BYTES then Some(Rows(file)[0])
            else if |file| >= IDENTITY_BYTES then Some(file[..IDENTITY_BYTES])
            else None
  {
    hide FirstNewline, Rows;
    var head := file[..Min(|file|, IDENTITY_BYTES)];
    var k := FirstNewline(file);
    RowsUnfold(file);
    if FirstNewline(head) < |head| {
      FirstNewlineIsFirst(file, FirstNewline(head));
      FirstNewlineKept(head, file[|head|..]);
      assert head + file[|head|..] == file;
      assert head[..k] == file[..k];
    } else {
      assert head[..FirstNewline(head)] == head;
    }
  }

  /** Two files with whole first lines short enough have the same identity exactly when these lines
      are the same. */
  lemma IdentityTells(a: string, b: string)
    requires FirstNewline(a) < |a| && FirstNewline(a) < IDENTITY_BYTES
    requires FirstNewline(b) < |b| && FirstNewline(b) < IDENTITY_BYTES
    ensures HeadIdentity(a).Some? && (HeadIdentity(a) == HeadIdentity(b) <==> Rows(a)[0] == Rows(b)[0])
  {
    hide Rows, FirstNewline, HeadIdentity;
    IdentityIs(a);
    IdentityIs(b);
  }

  lemma {:induction false} FirstNewlineKept(t: string, more: string)
    requires FirstNewline(t) < |t|
    ensures FirstNewline(t + more) == FirstNewline(t)
  {
    if t[0] != '\n' {
      FirstNewlineKept(t[1..], more);
      assert (t + more)[1..] == t[1..] + more;
    }
  }

  lemma StepFollows(r: Reader, e: Event)
    requires Follows(r) && (e.ReadPass? ==> e.window > 0)
    ensures Follows(Step(r, e))
    ensures Step(r, e).cursor >= r.cursor && r.delivered <= Step(r, e).delivered
    ensures r.identity.Some? ==> Step(r, e).identity == r.identity
  {
    match e
    case Append(bytes) =>
      if HeadIdentity(r.file).Some? {
        IdentityStays(r.file, bytes);
      }
    case ReadPass(window, maxBytes) =>
      PassKeepsLineStart(r.file, r.cursor, window, maxBytes);
      var to := ScannedTo(r.file, r.cursor, window, maxBytes);
      hide ScannedTo, HeadIdentity;
      assert r.file[..r.cursor] + r.file[r.cursor..to] == r.file[..to];
    case Missing =>
  }

  ghost function Followed(r: Reader, events: seq<Event>): Reader
    decreases |events|
  {
    if events == [] then r
    else Step(Followed(r, events[..|events| - 1]), events[|events| - 1])
  }

  /** Exactly-once delivery: over any interleaving of appends and passes, in whatever windows and
      under whatever caps, what was delivered is exactly the file before the cursor, the cursor
      is at the start of a line, and the identity, once known, is that of the file. */
  lemma {:induction false} DeliveredExactlyOnce(file: string, events: seq<Event>)
    requires forall k :: 0 <= k < |events| && events[k].ReadPass? ==> events[k].window > 0
    ensures Follows(Followed(Reader(file, 0, "", None), events))
    decreases |events|
  {
    if events != [] {
      var before := events[..|events| - 1];
      DeliveredExactlyOnce(file, before);
      StepFollows(Followed(Reader(file, 0, "", None), before), events[|events| - 1]);
    }
  }

  /** And the identity never changes along the way. */
  lemma {:induction false} IdentityNeverChanges(file: string, events: seq<Event>, k: nat)
    requires forall n :: 0 <= n < |events| && events[n].ReadPass? ==> events[n].window > 0
    requires k <= |events|
    ensures var was := Followed(Reader(file, 0, "", None), events[..k]).identity;
            was.Some? ==> Followed(Reader(file, 0, "", None), events).identity == was
    decreases |events| - k
  {
    if k == |events| {
      assert events[..k] == events;
    } else {
      IdentityNeverChanges(file, events, k + 1);
      assert events[..k + 1][..k] == events[..k] && events[..k + 1][k] == events[k];
      DeliveredExactlyOnce(file, events[..k]);
      StepFollows(Followed(Reader(file, 0, "", None), events[..k]), events[k]);
    }
  }
}

/** What the steps of the log do to the reviewed text and to what a reject restores, over single
    steps and over whole runs.

    A user's update is carried over to the reviewed text (`UserUpdateRebases`), and while only the
    user writes, the reviewed text is the buffer (`UserRunIsReviewed`).  What the agent does first
    to a file fixes what a full reject brings back, whatever it does then (`AgentRunRestores`). */
module LogRuns {
  import opened Prelude
  import opened Texts
  import opened Patches
  import opened RowDiff
  import opened Rebase
  import opened Composing
  import opened Review
  import opened ActionLog

  // ----- the base of an update, on rows

  ghost predicate NoNewlineRows(cs: seq<Change<string>>) {
    forall q :: 0 <= q < |cs| ==> NoNewlines(cs[q].rows)
  }

  lemma NoNewlinesSlice(rs: seq<string>, a: int, b: int)
    requires NoNewlines(rs)
    ensures NoNewlines(Slice(rs, a, b))
  {
  }

  lemma NoNewlinesTwo(x: seq<string>, y: seq<string>)
    requires NoNewlines(x) && NoNewlines(y)
    ensures NoNewlines(x + y)
  {
  }

  lemma {:induction false} RebasedNoNewlines(
      b: seq<string>, us: seq<Edit>, cs: seq<Change<string>>, i: int, j: int)
    requires NoNewlines(b) && NoNewlineRows(cs)
    ensures NoNewlines(Rebased(b, us, cs, i, j))
    decreases |us| + |cs|
  {
    hide NoNewlines, Before, Slice;
    if us == [] && cs == [] {
      NoNewlinesSlice(b, i, |b|);
    } else if cs != [] && (us == [] || Before(cs[0].Extent(), us[0])) {
      RebasedNoNewlines(b, us, cs[1..], cs[0].end - j + i, cs[0].end);
      NoNewlinesSlice(b, i, cs[0].start - j + i);
      NoNewlinesTwo(Slice(b, i, cs[0].start - j + i), cs[0].rows);
      NoNewlinesTwo(Slice(b, i, cs[0].start - j + i) + cs[0].rows,
                    Rebased(b, us, cs[1..], cs[0].end - j + i, cs[0].end));
    } else {
      RebasedNoNewlines(b, us[1..], cs, us[0].oldEnd, us[0].newEnd);
      NoNewlinesSlice(b, i, us[0].oldEnd);
      NoNewlinesTwo(Slice(b, i, us[0].oldEnd), Rebased(b, us[1..], cs, us[0].oldEnd, us[0].newEnd));
    }
  }

  /** A change up to the end leaves rows there. */
  ghost predicate EndsInRows(cs: seq<Change<string>>, size: int) {
    forall q :: 0 <= q < |cs| && cs[q].end == size ==> cs[q].rows != []
  }

  lemma {:induction false} RebasedNotEmpty(
      b: seq<string>, o: seq<string>, us: seq<Edit>, cs: seq<Change<string>>, i: int, j: int)
    requires Aligned(b, o, us, i, j) && StartsInside(b, o, us) && i < |b|
    requires Fits(cs, |o|, j) && Untouched(us, cs) && EndsInRows(cs, |o|)
    ensures Rebased(b, us, cs, i, j) != []
    decreases |us| + |cs|
  {
    hide *;
    UntouchedTails(us, cs);
    AlignedBounds(b, o, us, i, j);
    if us == [] && cs == [] {
      AtEnd(b, o, us, cs, i, j, 0);
    } else if cs != [] && (us == [] || Before(cs[0].Extent(), us[0])) {
      var c := cs[0];
      AtChange(b, o, us, cs, i, j, 0);
      if c.start == j && c.rows == [] {
        var g := ChangeGap(b, o, us, c, i, j);
        EndsInRowsTail(cs, |o|);
        StaysInside(b, o, us, c, i, j);
        RebasedNotEmpty(b, o, us, cs[1..], c.end - j + i, c.end);
      } else {
        var g := ChangeGap(b, o, us, c, i, j);
        assert |g| + |c.rows| > 0;
      }
    } else {
      AtEdit(b, o, us, cs, i, j, 0);
      if us[0].oldEnd == i {
        StartsInsideTail(b, o, us);
        RebasedNotEmpty(b, o, us[1..], cs, us[0].oldEnd, us[0].newEnd);
      }
    }
  }

  lemma EndsInRowsTail(cs: seq<Change<string>>, size: int)
    requires EndsInRows(cs, size) && cs != []
    ensures EndsInRows(cs[1..], size) && (cs[0].end == size ==> cs[0].rows != [])
  {
  }

  lemma StartsInsideTail(b: seq<string>, s: seq<string>, es: seq<Edit>)
    requires StartsInside(b, s, es) && es != []
    ensures StartsInside(b, s, es[1..])
  {
  }

  lemma StaysInside(b: seq<string>, o: seq<string>, us: seq<Edit>, c: Change<string>, i: int, j: int)
    requires Aligned(b, o, us, i, j) && StartsInside(b, o, us) && j <= c.end < |o|
    requires us == [] || Before(c.Extent(), us[0])
    ensures c.end - j + i < |b|
  {
    hide Aligned;
    GapLength(b, o, us, i, j);
    assert us != [] ==> us[0].oldStart < |b|;
  }

  lemma {:induction false} AllowedRows(us: seq<Edit>, vs: seq<Edit>, o: seq<string>, n: seq<string>, j: int, k: int)
    requires Aligned(o, n, vs, j, k) && StartsInside(o, n, vs) && NoNewlines(n)
    ensures NoNewlineRows(AllowedChanges(us, vs, n)) && EndsInRows(AllowedChanges(us, vs, n), |o|)
    decreases |vs|
  {
    hide Allowed, NoNewlines;
    if vs != [] {
      EndsTogether(o, n, vs, j, k);
      AlignedIn(o, n, vs, j, k);
      StartsInsideTail(o, n, vs);
      hide Aligned;
      AllowedRows(us, vs[1..], o, n, vs[0].oldEnd, vs[0].newEnd);
      NoNewlinesSlice(n, vs[0].newStart, vs[0].newEnd);
      AllowedRowsCons(us, vs, o, n);
    }
  }

  lemma AllowedRowsCons(us: seq<Edit>, vs: seq<Edit>, o: seq<string>, n: seq<string>)
    requires vs != [] && vs[0].Within(o, n) && vs[0].newStart < |n|
    requires vs[0].oldEnd == |o| <==> vs[0].newEnd == |n|
    requires NoNewlines(Slice(n, vs[0].newStart, vs[0].newEnd))
    requires var cs := AllowedChanges(us, vs[1..], n); NoNewlineRows(cs) && EndsInRows(cs, |o|)
    ensures var cs := AllowedChanges(us, vs, n); NoNewlineRows(cs) && EndsInRows(cs, |o|)
  {
    hide Allowed, NoNewlines;
  }

  /** The base an update computes has the rows of the rebase. */
  lemma UpdateRows(t: Tracked, u: Update, diff: seq<Edit>)
    requires TrackedOk(t) && UnitDiff(t.snapshot, diff, u.text) && u.author == User
    ensures Rows(UpdateBase(t, u, diff)) ==
            RebasedBase(Rows(t.diffBase), t.edits, Merge(RowEdits(t.snapshot, diff, u.text, 0, 0)), Rows(u.text))
  {
    hide *;
    var b, o, n := Rows(t.diffBase), Rows(t.snapshot), Rows(u.text);
    RowDiffIsRep(t.snapshot, diff, u.text);
    UnitDiffAligned(t.snapshot, diff, u.text);
    var vs := Merge(RowEdits(t.snapshot, diff, u.text, 0, 0));
    TrackedMeans(t);
    RepParts(b, t.edits, o);
    RepParts(o, vs, n);
    AllowedReady(b, o, n, t.edits, vs);
    RowsHaveNoNewlines(t.diffBase);
    RowsHaveNoNewlines(u.text);
    AllowedRows(t.edits, vs, o, n, 0, 0);
    var cs := AllowedChanges(t.edits, vs, n);
    RebasedNoNewlines(b, t.edits, cs, 0, 0);
    RebasedNotEmpty(b, o, t.edits, cs, 0, 0);
    BaseNames(b, o, n, t.edits, vs);
    UserUpdateBase(t, u, diff);
    RowsOfJoin(RebasedBase(b, t.edits, vs, n));
  }

  // ----- the user's updates

  /** A step that starts a user's update carries it over: from the base under way the text of the
      update is reached by the unreviewed edits, moved, and then by the conflicting user edits; and
      by one patch of no more edits than there were. */
  lemma UserUpdateRebases(s: Log, diff: seq<Edit>)
    requires Ok(s) && Enabled(s, StartUpdate(diff)) && s.tracked.value.queue[0].author == User
    ensures var t, t' := s.tracked.value, Step(s, StartUpdate(diff)).tracked.value;
            var u := t.queue[0];
            && t' == t.(queue := t.queue[1..], inFlight := t'.inFlight) && t'.inFlight.Some?
            && var f, o, n := t'.inFlight.value, Rows(t.snapshot), Rows(u.text);
               var vs := Merge(RowEdits(t.snapshot, diff, u.text, 0, 0));
               && f.text == u.text && f.version == u.version
               && Aligned(Rows(f.base), AllowedOnly(o, t.edits, vs, n),
                          Moved(t.edits, AllowedChanges(t.edits, vs, n), 0), 0, 0)
               && Rep(AllowedOnly(o, t.edits, vs, n), Rest(vs, AllowedMask(t.edits, vs), 0), n)
               && Aligned(Rows(f.base), n, RebasedPatch(t.edits, vs, n), 0, 0)
               && |RebasedPatch(t.edits, vs, n)| <= |t.edits|
  {
    hide *;
    StartedUpdate(s, diff);
    var t := s.tracked.value;
    var u := t.queue[0];
    OkMeans(s);
    TrackedMeans(t);
    RowDiffIsRep(t.snapshot, diff, u.text);
    UnitDiffAligned(t.snapshot, diff, u.text);
    var vs := Merge(RowEdits(t.snapshot, diff, u.text, 0, 0));
    UpdateRows(t, u, diff);
    RebaseTheorem(Rows(t.diffBase), Rows(t.snapshot), Rows(u.text), t.edits, vs);
    OnePatch(Rows(t.diffBase), Rows(t.snapshot), Rows(u.text), t.edits, vs);
  }

  /** An agent's update starts from the base as it is. */
  lemma AgentUpdateKeeps(s: Log, diff: seq<Edit>)
    requires Ok(s) && Enabled(s, StartUpdate(diff)) && s.tracked.value.queue[0].author == Agent
    ensures var t, t' := s.tracked.value, Step(s, StartUpdate(diff)).tracked.value;
            var u := t.queue[0];
            t' == t.(queue := t.queue[1..], inFlight := Some(InFlight(t.diffBase, u.text, u.version)))
  {
    hide Rows, Rep, UnitDiff, UpdateEdits, RebasedBase, TrackedOk;
  }

  lemma StartedUpdate(s: Log, diff: seq<Edit>)
    requires Ok(s) && Enabled(s, StartUpdate(diff))
    ensures s.tracked.Some? && s.tracked.value.queue != []
    ensures var t, s' := s.tracked.value, Step(s, StartUpdate(diff));
            var u := t.queue[0];
            && UnitDiff(t.snapshot, diff, u.text) && s'.tracked.Some?
            && s' == s.(tracked := Some(t.(queue := t.queue[1..],
                        inFlight := Some(InFlight(UpdateBase(t, u, diff), u.text, u.version)))))
  {
    hide Rows, Rep, UnitDiff, UpdateBase, TrackedOk;
  }

  /** Finishing writes back what was computed at the start, and nothing is under way any more. */
  lemma FinishWritesBack(s: Log, hunks: seq<Edit>)
    requires Ok(s) && Enabled(s, FinishUpdate(hunks))
    ensures var t, s' := s.tracked.value, Step(s, FinishUpdate(hunks));
            && s'.tracked.Some? && s'.text == s.text && s'.version == s.version
            && var t', f := s'.tracked.value, t.inFlight.value;
               && t'.diffBase == f.base && t'.snapshot == f.text && t'.snapshotVersion == f.version
               && t'.inFlight.None? && t'.queue == t.queue && t'.status == t.status
               && Rep(Rows(f.base), t'.edits, Rows(f.text))
               && (hunks == [] ==> t'.edits == [])
  {
    StepOk(s, FinishUpdate(hunks));
    hide Rows, Rep, UnitDiff, RowEdits;
    if hunks == [] {
      NoRowEdits(s.tracked.value.inFlight.value.base, s.tracked.value.inFlight.value.text);
    }
  }

  lemma NoRowEdits(o: string, n: string)
    ensures Aligned(o, n, [], 0, 0) ==> RowEdits(o, [], n, 0, 0) == []
  {
  }

  /** Everything is reviewed, or will be once the user's updates are through. */
  ghost predicate AllUsers(s: Log) {
    s.tracked.Some? && var t := s.tracked.value;
    && t.edits == [] && t.diffBase == t.snapshot
    && (t.inFlight.Some? ==> t.inFlight.value.base == t.inFlight.value.text)
    && forall k :: 0 <= k < |t.queue| ==> t.queue[k].author == User
  }

  predicate UserStep(e: Event) {
    e.UserEdit? || e.StartUpdate? || e.FinishUpdate?
  }

  /** The differ finds nothing between equal texts. */
  ghost predicate NoHunksIfEqual(s: Log, e: Event) {
    (e.FinishUpdate? && s.tracked.Some? && s.tracked.value.inFlight.Some?
     && s.tracked.value.inFlight.value.base == s.tracked.value.inFlight.value.text)
    ==> e.hunks == []
  }

  lemma UserStepKeepsAll(s: Log, e: Event)
    requires Ok(s) && Enabled(s, e) && UserStep(e) && NoHunksIfEqual(s, e) && AllUsers(s)
    ensures AllUsers(Step(s, e))
  {
    if e.StartUpdate? {
      StartKeepsAll(s, e.diff);
    } else if e.FinishUpdate? {
      FinishKeepsAll(s, e.hunks);
    } else {
      hide Rows, Rep, TrackedOk;
    }
  }

  lemma StartKeepsAll(s: Log, diff: seq<Edit>)
    requires Ok(s) && Enabled(s, StartUpdate(diff)) && AllUsers(s)
    ensures AllUsers(Step(s, StartUpdate(diff)))
  {
    hide Rows, Rep, UnitDiff, UpdateBase, TrackedOk, Step;
    var t := s.tracked.value;
    StartedUpdate(s, diff);
    OkMeans(s);
    TakenWhole(t, t.queue[0], diff);
    assert forall k :: 0 <= k < |t.queue[1..]| ==> t.queue[1..][k] == t.queue[k + 1];
  }

  /** With nothing unreviewed a user's update computes its own text. */
  lemma TakenWhole(t: Tracked, u: Update, diff: seq<Edit>)
    requires TrackedOk(t) && t.edits == [] && u.author == User && UnitDiff(t.snapshot, diff, u.text)
    ensures UpdateBase(t, u, diff) == u.text
  {
    hide *;
    TrackedMeans(t);
    RowDiffIsRep(t.snapshot, diff, u.text);
    UnitDiffAligned(t.snapshot, diff, u.text);
    NothingHeldBack(Rows(t.diffBase), Rows(t.snapshot), Rows(u.text),
                    Merge(RowEdits(t.snapshot, diff, u.text, 0, 0)));
    UserUpdateBase(t, u, diff);
    JoinOfRows(u.text);
  }

  lemma FinishKeepsAll(s: Log, hunks: seq<Edit>)
    requires Ok(s) && Enabled(s, FinishUpdate(hunks)) && AllUsers(s) && NoHunksIfEqual(s, FinishUpdate(hunks))
    ensures AllUsers(Step(s, FinishUpdate(hunks)))
  {
    hide Rows, Rep, UnitDiff, TrackedOk, Step;
    FinishWritesBack(s, hunks);
  }

  /** While only the user writes, from a buffer that is wholly reviewed, the reviewed text is the
      buffer whenever the log is idle, and that is what a full reject restores. */
  lemma {:induction false} UserRunIsReviewed(states: seq<Log>, events: seq<Event>, k: nat)
    requires Run(states, events) && k < |states| && Ok(states[0]) && UpToDate(states[0]) && AllUsers(states[0])
    requires forall n :: 0 <= n < k ==> UserStep(events[n]) && NoHunksIfEqual(states[n], events[n])
    ensures Ok(states[k]) && UpToDate(states[k]) && AllUsers(states[k])
    ensures var t := states[k].tracked.value;
            Idle(t) ==> t.edits == [] && t.diffBase == states[k].text
    ensures states[k].tracked.value.status == states[0].tracked.value.status
  {
    if k > 0 {
      UserRunIsReviewed(states, events, k - 1);
      assert Enabled(states[k - 1], events[k - 1]);
      assert UserStep(events[k - 1]) && NoHunksIfEqual(states[k - 1], events[k - 1]);
      StepOk(states[k - 1], events[k - 1]);
      StepUpToDate(states[k - 1], events[k - 1]);
      UserStepKeepsAll(states[k - 1], events[k - 1]);
      UserStepStatus(states[k - 1], events[k - 1]);
      hide Step, Ok, Enabled, Rows;
    } else {
      hide Step, Ok, Enabled, Rows;
    }
  }

  lemma UserStepStatus(s: Log, e: Event)
    requires Ok(s) && Enabled(s, e) && UserStep(e) && s.tracked.Some?
    ensures Step(s, e).tracked.Some? && Step(s, e).tracked.value.status == s.tracked.value.status
  {
    hide Rows, Rep, UnitDiff, UpdateBase, RowEdits, TrackedOk;
  }

  // ----- what the agent does first

  /** What a full reject restores once the agent has touched a file the log did not know: the text
      the file had, or none if there was no file; for an edit the log was not told of beforehand,
      the text it finds. */
  lemma FirstTouch(s: Log, e: Event)
    requires s.tracked.None? && Enabled(s, e) && Ok(s)
    requires e.AgentRead? || e.AgentCreate? || e.AgentEdit? || e.AgentDelete?
    ensures var s' := Step(s, e);
            && s'.tracked.Some? && AgentsOwn(s'.tracked.value)
            && Restores(s'.tracked.value) ==
               if e.AgentCreate? then (if s.onDisk then Content(s.text) else NoFile)
               else if e.AgentEdit? then Content(e.text)
               else Content(s.text)
  {
    hide Rows, Rep;
  }

  lemma RunTail(states: seq<Log>, events: seq<Event>)
    requires Run(states, events) && events != []
    ensures Run(states[1..], events[1..])
  {
    forall k | 0 <= k < |events[1..]|
      ensures Enabled(states[1..][k], events[1..][k]) &&
              (Ok(states[1..][k]) ==> states[1..][k + 1] == Step(states[1..][k], events[1..][k]))
    {
      assert Enabled(states[k + 1], events[k + 1]);
      hide Step, Ok, Enabled;
    }
  }

  /** Agent steps that drop nothing: no delete of a buffer held as created. */
  ghost predicate AgentRun(states: seq<Log>, events: seq<Event>, k: nat) {
    && Run(states, events) && k < |states|
    && (forall n :: 0 <= n < k ==> AgentStep(events[n]))
    && forall n :: 0 <= n < k && states[n].tracked.Some? && events[n].AgentDelete? ==>
         !states[n].tracked.value.status.Created?
  }

  /** From a file the log does not know, over every run of agent steps that begins with a read, a
      create or a delete: what a full reject restores is what the file was at the start. */
  lemma AgentRunKeepsFile(states: seq<Log>, events: seq<Event>, k: nat)
    requires AgentRun(states, events, k) && 0 < k && states[0].tracked.None?
    requires events[0].AgentRead? || events[0].AgentCreate? || events[0].AgentDelete?
    ensures Ok(states[k]) && states[k].tracked.Some?
    ensures Restores(states[k].tracked.value) ==
            if events[0].AgentCreate? && !states[0].onDisk then NoFile else Content(states[0].text)
  {
    assert Enabled(states[0], events[0]);
    assert Ok(states[0]);
    FirstTouch(states[0], events[0]);
    StepOk(states[0], events[0]);
    RunTail(states, events);
    TailFacts(states, events, k);
    AgentRunKeepsRestore(states[1..], events[1..], k - 1);
    hide Run, Step, Ok, Enabled, Restores;
  }

  lemma TailFacts(states: seq<Log>, events: seq<Event>, k: nat)
    requires AgentRun(states, events, k) && 0 < k
    ensures |states[1..]| == |states| - 1 && states[1..][0] == states[1] && states[1..][k - 1] == states[k]
    ensures forall n :: 0 <= n < k - 1 ==> AgentStep(events[1..][n])
    ensures forall n :: 0 <= n < k - 1 && states[1..][n].tracked.Some? && events[1..][n].AgentDelete? ==>
              !states[1..][n].tracked.value.status.Created?
  {
    hide Run;
    assert |states| == |events| + 1 by {
      RunLength(states, events);
    }
    forall n | 0 <= n < k - 1
      ensures events[1..][n] == events[n + 1] && states[1..][n] == states[n + 1]
    {
    }
  }

  lemma RunLength(states: seq<Log>, events: seq<Event>)
    requires Run(states, events)
    ensures |states| == |events| + 1
  {
    hide Step, Ok, Enabled;
  }

  /** And so a full reject at any point gives the buffer the text the file had at the start. */
  lemma AgentRunRestores(states: seq<Log>, events: seq<Event>, k: nat, rows: nat)
    requires AgentRun(states, events, k) && 0 < k && states[0].tracked.None?
    requires events[0].AgentRead? || events[0].AgentDelete? || (events[0].AgentCreate? && states[0].onDisk)
    requires states[k].tracked.Some? && rows == |Rows(states[k].tracked.value.snapshot)|
    requires Enabled(states[k], Reject([RowRange(0, rows - 1)]))
    ensures Ok(states[k]) && StepReject(states[k], [RowRange(0, rows - 1)]).text == states[0].text
  {
    AgentRunKeepsFile(states, events, k);
    FullRejectRestores(states[k], rows);
    hide Run, Step, StepReject, Ok, Enabled, Rows;
  }

  /** Nobody but the agent has written to a created file. */
  ghost predicate Untainted(s: Log) {
    s.tracked.Some? && (s.tracked.value.status.Created? ==> s.tracked.value.version == s.version)
  }

  lemma AgentStepUntainted(s: Log, e: Event)
    requires Ok(s) && Enabled(s, e) && AgentStep(e) && Untainted(s)
    requires e.AgentDelete? ==> !s.tracked.value.status.Created?
    ensures Untainted(Step(s, e))
  {
    hide Rows, Rep, UnitDiff, UpdateBase, RowEdits, Merge, TrackedOk;
  }

  lemma FirstCreate(s: Log)
    requires s.tracked.None?
    ensures Untainted(Step(s, AgentCreate)) && UpToDate(Step(s, AgentCreate))
  {
    hide Rows, Rep;
  }

  lemma {:induction false} CreatedRunUntainted(states: seq<Log>, events: seq<Event>, k: nat)
    requires AgentRun(states, events, k) && 0 < k && states[0].tracked.None? && events[0].AgentCreate?
    ensures Ok(states[k]) && UpToDate(states[k]) && Untainted(states[k])
    decreases k
  {
    assert Enabled(states[k - 1], events[k - 1]);
    if k == 1 {
      FirstCreate(states[0]);
      StepOk(states[0], events[0]);
    } else {
      CreatedRunUntainted(states, events, k - 1);
      assert AgentStep(events[k - 1]);
      StepOk(states[k - 1], events[k - 1]);
      StepUpToDate(states[k - 1], events[k - 1]);
      AgentStepUntainted(states[k - 1], events[k - 1]);
      hide Step, Ok, Enabled, Rows;
    }
  }

  /** A file the agent created where there was none, and only the agent wrote to, is removed by a
      reject once the log is idle. */
  lemma CreatedFileIsRemoved(states: seq<Log>, events: seq<Event>, k: nat, ranges: seq<RowRange>)
    requires AgentRun(states, events, k) && 0 < k && states[0].tracked.None?
    requires events[0].AgentCreate? && !states[0].onDisk
    requires states[k].tracked.Some? && Idle(states[k].tracked.value)
    ensures Ok(states[k])
    ensures var s' := StepReject(states[k], ranges); !s'.onDisk && s'.tracked.None?
  {
    AgentRunKeepsFile(states, events, k);
    CreatedRunUntainted(states, events, k);
    hide Run, Rows, Rep, Step, Rejected, Apply, TrackedOk;
  }

  // ----- edits, reads and deletes

  /** Edits reach the buffer; an edit of the agent's ends a delete and changes no other status. */
  lemma EditsReachTheBuffer(s: Log, text: string)
    requires Ok(s)
    ensures Step(s, UserEdit(text)).text == text
    ensures Step(s, UserEdit(text)).tracked.Some? <==> s.tracked.Some?
    ensures var s' := Step(s, AgentEdit(text));
            && s'.text == text && s'.tracked.Some? && s'.tracked.value.version == s'.version
            && s'.tracked.value.status ==
               if s.tracked.Some? && !s.tracked.value.status.Deleted? then s.tracked.value.status else Modified
    ensures s.tracked.Some? && s.tracked.value.version <= s.version ==>
              !AgentOnly(Step(s, UserEdit(text)), Step(s, UserEdit(text)).tracked.value)
  {
    hide Rows, Rep, TrackedOk;
  }

  /** After a create everything in the buffer is unreviewed, against an empty reviewed text. */
  lemma CreateIsAllUnreviewed(s: Log, k: nat)
    requires Ok(s) && k < |Rows(s.text)|
    ensures var s' := Step(s, AgentCreate);
            && s'.tracked.Some? && s'.text == s.text && s'.tracked.value.status.Created?
            && s'.tracked.value.diffBase == "" && s'.tracked.value.snapshot == s.text
            && exists n :: 0 <= n < |s'.tracked.value.edits| && HasNewRow(s'.tracked.value.edits[n], k)
  {
    hide Rows, Rep, TrackedOk;
    var t := Step(s, AgentCreate).tracked.value;
    assert HasNewRow(t.edits[0], k);
  }

  /** Deleting empties a buffer that was not created by the agent; rejecting that brings its text
      back, and keeping it lets go of the buffer. */
  lemma DeleteStep(s: Log, ranges: seq<RowRange>, startRow: nat, endRow: nat)
    requires Ok(s) && (s.tracked.Some? ==> !s.tracked.value.status.Created?)
    ensures var s' := Step(s, AgentDelete);
            && Ok(s') && s'.tracked.Some? && s'.tracked.value.status.Deleted?
            && ((s.tracked.Some? ==> s.tracked.value.status.Modified?) ==>
                  && s'.text == "" && s'.version == s.version + 1
                  && s'.tracked.value.queue ==
                     (if s.tracked.Some? then s.tracked.value.queue else [])
                     + [Update(Agent, "", s'.version), Update(User, "", s'.version)])
            && StepKeep(s', startRow, endRow).tracked.None? && StepKeepAll(s').tracked.None?
            && var r, was := StepReject(s', ranges), if s.tracked.Some? then s.tracked.value.diffBase else s.text;
               && r.text == was && r.onDisk && r.tracked.Some? && r.tracked.value.edits == []
               && r.tracked.value.diffBase == was && r.tracked.value.status.Modified?
  {
    StepOk(s, AgentDelete);
    hide Rows, Rep, TrackedOk, Rejected, Apply, KeptBase;
  }

  // ----- keeping

  /** A keep of a range, in the log: the edits the range shares a row with, ends included, are made
      in the reviewed text and gone; the others stay, and what they are edits of is the snapshot. */
  lemma KeepStep(s: Log, startRow: nat, endRow: nat)
    requires Ok(s) && s.tracked.Some? && !s.tracked.value.status.Deleted?
    ensures var t, s' := s.tracked.value, Step(s, Keep(startRow, endRow));
            && s'.tracked.Some? && s'.text == s.text
            && Aligned(Rows(t.diffBase), Rows(t.snapshot), t.edits, 0, 0)
            && var t', mask := s'.tracked.value, KeepMask(t.edits, startRow, endRow);
               && t'.snapshot == t.snapshot && t'.edits == Rest(t.edits, mask, 0)
               && Rows(t'.diffBase) == Mid(Rows(t.diffBase), Rows(t.snapshot), t.edits, mask, 0, 0)
               && t'.status == (if t'.edits == [] && t.status.Created? then Modified else t.status)
               && t'.queue == t.queue + [Update(User, s.text, s.version)]
  {
    hide *;
    OkMeans(s);
    KeptRows(s.tracked.value, KeepMask(s.tracked.value.edits, startRow, endRow));
    KeepStepIs(s, startRow, endRow);
  }

  lemma KeepStepIs(s: Log, startRow: nat, endRow: nat)
    requires Ok(s) && s.tracked.Some? && !s.tracked.value.status.Deleted?
    ensures var t, s' := s.tracked.value, Step(s, Keep(startRow, endRow));
            var mask := KeepMask(t.edits, startRow, endRow);
            var rest := Rest(t.edits, mask, 0);
            && TrackedOk(t)
            && s' == s.(tracked := Some(t.(diffBase := KeptBase(t, mask), edits := rest,
                        status := (if rest == [] && t.status.Created? then Modified else t.status),
                        queue := t.queue + [Update(User, s.text, s.version)])))
  {
    hide Rows, Rep, KeptBase, Rest, KeepMask;
  }

  /** Keeping all edits, or a range over the whole buffer, leaves nothing unreviewed: a full reject
      then restores what was last seen, and the buffer is no longer held as created. */
  lemma KeptIsReviewed(s: Log, e: Event)
    requires Ok(s) && s.tracked.Some? && !s.tracked.value.status.Deleted?
    requires e.KeepAll? || (e.Keep? && e.startRow == 0 && e.endRow >= |Rows(s.tracked.value.snapshot)| - 1)
    ensures var t, s' := s.tracked.value, Step(s, e);
            && s'.tracked.Some? && s'.tracked.value.edits == [] && s'.tracked.value.status.Modified?
            && s'.tracked.value.diffBase == t.snapshot && Restores(s'.tracked.value) == Content(t.snapshot)
            && s'.tracked.value.queue == t.queue + [Update(User, s.text, s.version)]
  {
    var t := s.tracked.value;
    if e.Keep? {
      OkMeans(s);
      hide *;
      KeepStep(s, e.startRow, e.endRow);
      var t' := Step(s, e).tracked.value;
      TrackedMeans(t);
      KeepWholeIsKeepAll(t.edits, Rows(t.diffBase), Rows(t.snapshot), e.endRow);
      JoinOfRows(t'.diffBase);
      JoinOfRows(t.snapshot);
      ModifiedRestores(t');
    } else {
      hide Rows, Rep, TrackedOk;
    }
  }

  lemma ModifiedRestores(t: Tracked)
    requires t.status.Modified?
    ensures Restores(t) == Content(t.diffBase)
  {
  }

  // ----- committing

  /** A commit, in the log: the base under way is the reviewed text with exactly the committed edits
      made, and finishing makes it the reviewed text. */
  lemma CommitStep(s: Log, git: string, committed: seq<Edit>)
    requires Ok(s) && Enabled(s, StartCommit(git, committed))
    ensures var t, s' := s.tracked.value, Step(s, StartCommit(git, committed));
            && s'.tracked.Some? && s'.tracked.value.inFlight.Some?
            && Aligned(Rows(t.diffBase), Rows(t.snapshot), t.edits, 0, 0)
            && var f, mask := s'.tracked.value.inFlight.value, CommitMask(committed, t.edits, t.snapshot, git);
               && f.text == t.snapshot && f.version == t.snapshotVersion
               && s'.tracked.value == t.(inFlight := Some(f))
               && Rows(f.base) == Mid(Rows(t.diffBase), Rows(t.snapshot), t.edits, mask, 0, 0)
               && Rep(Rows(f.base), Rest(t.edits, mask, 0), Rows(t.snapshot))
  {
    hide *;
    CommitStepIs(s, git, committed);
    var t := s.tracked.value;
    var mask := CommitMask(committed, t.edits, t.snapshot, git);
    KeptRows(t, mask);
    KeepOk(t, mask);
  }

  lemma CommitStepIs(s: Log, git: string, committed: seq<Edit>)
    requires Ok(s) && Enabled(s, StartCommit(git, committed))
    ensures s.tracked.Some? && TrackedOk(s.tracked.value)
    ensures var t, s' := s.tracked.value, Step(s, StartCommit(git, committed));
            var base := KeptBase(t, CommitMask(committed, t.edits, t.snapshot, git));
            s' == s.(tracked := Some(t.(inFlight := Some(InFlight(base, t.snapshot, t.snapshotVersion)))))
  {
    hide Rows, Rep, KeptBase, CommitMask, LineDiff;
  }

  // ----- rejecting

  /** A reject, in the log, by status.  A created file gets back what it overwrote; one that
      overwrote nothing is removed if only the agent wrote to it, and left as it is if not.  A
      deleted file gets back its reviewed text and is tracked afresh.  In a modified one the rows of
      the selected edits are put back, and the change is queued as the user's. */
  lemma RejectByStatus(s: Log, ranges: seq<RowRange>)
    requires Ok(s) && s.tracked.Some? && Enabled(s, Reject(ranges))
    ensures var t, s' := s.tracked.value, Step(s, Reject(ranges));
            match t.status
            case Created(Some(existing)) => s'.text == existing && s'.onDisk && s'.tracked.None?
            case Created(None) =>
              && s'.text == s.text && s'.tracked.None?
              && s'.onDisk == (if AgentOnly(s, t) then false else s.onDisk)
            case Deleted =>
              && s'.text == t.diffBase && s'.onDisk && s'.tracked.Some?
              && s'.tracked.value.diffBase == t.diffBase && s'.tracked.value.edits == []
              && s'.tracked.value.status.Modified?
            case Modified =>
              && Aligned(Rows(t.diffBase), Rows(t.snapshot), t.edits, 0, 0)
              && var selected := Select(t.edits, ranges, |Rows(t.snapshot)|);
                 && Rows(s'.text) == Mid(Rows(t.diffBase), Rows(t.snapshot), t.edits, Not(selected), 0, 0)
                 && s'.onDisk == s.onDisk && s'.tracked.Some?
                 && s'.tracked.value == t.(queue := s'.tracked.value.queue)
  {
    var t := s.tracked.value;
    OkMeans(s);
    if t.status.Modified? {
      hide *;
      TrackedMeans(t);
      RejectedIs(t, ranges);
      RejectTheorem(t.edits, Select(t.edits, ranges, |Rows(t.snapshot)|), t.diffBase, t.snapshot);
      ModifiedReject(s, ranges);
    } else {
      hide Rows, Rep, TrackedOk, Rejected, Apply, Mid, Select;
    }
  }

  lemma ModifiedReject(s: Log, ranges: seq<RowRange>)
    requires Ok(s) && s.tracked.Some? && Enabled(s, Reject(ranges)) && s.tracked.value.status.Modified?
    ensures var t, s' := s.tracked.value, Step(s, Reject(ranges));
            && TrackedOk(t) && s'.text == Apply(t.snapshot, Rejected(t, ranges), 0) && s'.onDisk == s.onDisk
            && s'.tracked.Some? && s'.tracked.value == t.(queue := s'.tracked.value.queue)
  {
    hide Rows, Rep, Rejected, Apply;
    ApplyNone(s.text);
  }

  // ----- changes on disk

  /** The file goes or comes back on disk: a buffer the agent had deleted is tracked afresh when its
      file is there again, any other is let go of when its file is gone, and nothing else changes. */
  lemma FileChangedStep(s: Log, deleted: bool)
    requires Ok(s)
    ensures var s' := Step(s, FileChanged(deleted));
            && s'.text == s.text && s'.version == s.version && s'.onDisk == !deleted
            && (s.tracked.None? ==> s'.tracked.None?)
            && (s.tracked.Some? && !s.tracked.value.status.Deleted? ==>
                  s'.tracked == if deleted then None else s.tracked)
            && (s.tracked.Some? && s.tracked.value.status.Deleted? && deleted ==> s'.tracked == s.tracked)
            && (s.tracked.Some? && s.tracked.value.status.Deleted? && !deleted ==>
                  && s'.tracked.Some? && s'.tracked.value.edits == [] && s'.tracked.value.status.Modified?
                  && Restores(s'.tracked.value) == Content(s.text) && Idle(s'.tracked.value))
  {
    hide Rows, Rep, TrackedOk;
  }
}

/** The log of one buffer: what is tracked about it, and every step that changes it.

    The steps are those of the engine: the user edits, the agent reads, creates, edits and
    deletes, updates start and finish separately, and the user keeps, commits and rejects.
    `Step` says what each makes of a state; the class below does the same in place, with the
    engine's own loops.  The two main results are about whole runs: the unreviewed edits always
    represent the difference between the reviewed and the last seen text, and no run of agent
    steps changes what a full reject would restore. */
module ActionLog {
  import opened Prelude
  import opened Texts
  import opened Patches
  import opened RowDiff
  import opened Rebase
  import opened Review
  import opened Feedback

  datatype Author = User | Agent

  /** `Created` remembers the text of the file it overwrote, if there was one. */
  datatype Status = Created(existing: Option<string>) | Modified | Deleted

  datatype Update = Update(author: Author, text: string, version: nat)

  /** An update under way: the base it computed when it started, and the text it was for. */
  datatype InFlight = InFlight(base: string, text: string, version: nat)

  datatype Tracked = Tracked(
    diffBase: string, edits: seq<Edit>, snapshot: string, snapshotVersion: nat,
    status: Status, version: nat, queue: seq<Update>, inFlight: Option<InFlight>)

  datatype Log = Log(text: string, version: nat, onDisk: bool, tracked: Option<Tracked>)

  // ----- the invariant

  ghost predicate TrackedOk(t: Tracked) {
    Rep(Rows(t.diffBase), t.edits, Rows(t.snapshot))
  }

  ghost predicate Ok(s: Log) {
    s.tracked.Some? ==> TrackedOk(s.tracked.value)
  }

  // ----- what a step makes of what is tracked

  /** Tracking a buffer that is only read or edited. */
  function TrackRead(s: Log): Tracked {
    if s.tracked.Some? then s.tracked.value.(version := s.version)
    else Tracked(s.text, [], s.text, s.version, Modified, s.version, [], None)
  }

  /** The status a created buffer gets: it keeps what it already remembers, or remembers the
      reviewed text, or the file as it is on disk. */
  function CreatedStatus(s: Log): Status {
    match s.tracked
    case Some(t) => if t.status.Created? then t.status else Created(Some(t.diffBase))
    case None => Created(if s.onDisk then Some(s.text) else None)
  }

  /** Tracking a created buffer starts over: everything in it is unreviewed. */
  function TrackCreated(s: Log): Tracked {
    Tracked("", [Edit(0, 1, 0, |Rows(s.text)|)], s.text, s.version, CreatedStatus(s), s.version,
            [], None)
  }

  function Schedule(t: Tracked, author: Author, text: string, version: nat): Tracked {
    t.(queue := t.queue + [Update(author, text, version)])
  }

  /** The row edits of an update, from the edits the buffer reports. */
  ghost function UpdateEdits(t: Tracked, u: Update, diff: seq<Edit>): seq<Edit>
    requires UnitDiff(t.snapshot, diff, u.text)
  {
    Merge(RowEdits(t.snapshot, diff, u.text, 0, 0))
  }

  /** The base an update computes when it starts. */
  ghost function UpdateBase(t: Tracked, u: Update, diff: seq<Edit>): string
    requires UnitDiff(t.snapshot, diff, u.text)
  {
    if u.author == User
    then Join(RebasedBase(Rows(t.diffBase), t.edits, UpdateEdits(t, u, diff), Rows(u.text)))
    else t.diffBase
  }

  ghost function KeptBase(t: Tracked, mask: seq<bool>): string
    requires |mask| == |t.edits| && TrackedOk(t)
  {
    Join(Mid(Rows(t.diffBase), Rows(t.snapshot), t.edits, mask, 0, 0))
  }

  function Reviewed(status: Status, edits: seq<Edit>): Status {
    if edits == [] && status.Created? then Modified else status
  }

  // ----- the steps

  datatype Event =
    | UserEdit(text: string)
    | AgentRead
    | AgentCreate
    | AgentEdit(text: string)
    | AgentDelete
    | StartUpdate(diff: seq<Edit>)
    | StartCommit(git: string, committed: seq<Edit>)
    | FinishUpdate(hunks: seq<Edit>)
    | Keep(startRow: nat, endRow: nat)
    | KeepAll
    | Reject(ranges: seq<RowRange>)
    | FileChanged(deleted: bool)

  /** When a step can happen.  An update starts when none is under way, with the edits the
      buffer reports since the last snapshot, none when the version is the same; it finishes
      with a diff between its base and its text.  A reject of a modified buffer is taken when
      the buffer is as last seen. */
  ghost predicate Enabled(s: Log, e: Event) {
    match e
    case StartUpdate(diff) =>
      s.tracked.Some? && var t := s.tracked.value;
      t.inFlight.None? && t.queue != [] && UnitDiff(t.snapshot, diff, t.queue[0].text) &&
      (t.queue[0].version == t.snapshotVersion ==> diff == [])
    case StartCommit(git, committed) =>
      s.tracked.Some? && s.tracked.value.inFlight.None? && LineDiff(committed)
    case FinishUpdate(hunks) =>
      s.tracked.Some? && s.tracked.value.inFlight.Some? &&
      var f := s.tracked.value.inFlight.value;
      UnitDiff(f.base, hunks, f.text)
    case Reject(ranges) =>
      s.tracked.Some? && s.tracked.value.status.Modified? ==> s.text == s.tracked.value.snapshot
    case _ => true
  }

  ghost function StepUserEdit(s: Log, text: string): Log {
    var s' := s.(text := text, version := s.version + 1);
    if s.tracked.None? then s'
    else s'.(tracked := Some(Schedule(s.tracked.value, User, text, s'.version)))
  }

  ghost function StepAgentEdit(s: Log, text: string): Log {
    var s' := s.(text := text, version := s.version + 1);
    var t := TrackRead(s');
    var t' := if t.status.Deleted? then t.(status := Modified) else t;
    s'.(tracked := Some(Schedule(t', Agent, text, s'.version)))
  }

  /** Deleting empties the buffer: the agent's update is scheduled at once, and the buffer's own
      change event brings one more for the same version. */
  ghost function StepAgentDelete(s: Log): Log {
    var t := TrackRead(s);
    match t.status
    case Created(_) => s.(tracked := None)
    case Deleted => s.(tracked := Some(t))
    case Modified =>
      var v := s.version + 1;
      var t' := Schedule(Schedule(t.(status := Deleted), Agent, "", v), User, "", v);
      s.(text := "", version := v, tracked := Some(t'))
  }

  ghost function StepStartUpdate(s: Log, diff: seq<Edit>): Log
    requires Enabled(s, StartUpdate(diff))
  {
    var t := s.tracked.value;
    var u := t.queue[0];
    s.(tracked := Some(t.(queue := t.queue[1..],
                          inFlight := Some(InFlight(UpdateBase(t, u, diff), u.text, u.version)))))
  }

  ghost function StepStartCommit(s: Log, git: string, committed: seq<Edit>): Log
    requires Ok(s) && Enabled(s, StartCommit(git, committed))
  {
    var t := s.tracked.value;
    var base := KeptBase(t, CommitMask(committed, t.edits, t.snapshot, git));
    s.(tracked := Some(t.(inFlight := Some(InFlight(base, t.snapshot, t.snapshotVersion)))))
  }

  ghost function StepFinishUpdate(s: Log, hunks: seq<Edit>): Log
    requires Enabled(s, FinishUpdate(hunks))
  {
    var t := s.tracked.value;
    var f := t.inFlight.value;
    s.(tracked := Some(t.(diffBase := f.base, snapshot := f.text, snapshotVersion := f.version,
                          edits := Merge(RowEdits(f.base, hunks, f.text, 0, 0)),
                          inFlight := None)))
  }

  ghost function StepKeep(s: Log, startRow: nat, endRow: nat): Log
    requires Ok(s)
  {
    if s.tracked.None? then s
    else
      var t := s.tracked.value;
      if t.status.Deleted? then s.(tracked := None)
      else
        var mask := KeepMask(t.edits, startRow, endRow);
        var rest := Rest(t.edits, mask, 0);
        var t' := t.(diffBase := KeptBase(t, mask), edits := rest,
                     status := Reviewed(t.status, rest));
        s.(tracked := Some(Schedule(t', User, s.text, s.version)))
  }

  ghost function StepKeepAll(s: Log): Log {
    if s.tracked.None? then s
    else
      var t := s.tracked.value;
      if t.status.Deleted? then s.(tracked := None)
      else
        var t' := t.(diffBase := t.snapshot, edits := [],
                     status := if t.status.Created? then Modified else t.status);
        s.(tracked := Some(Schedule(t', User, s.text, s.version)))
  }

  /** Whether a created file holds nothing but what the agent wrote. */
  predicate AgentOnly(s: Log, t: Tracked) {
    t.version == s.version && s.text == t.snapshot
  }

  ghost function StepReject(s: Log, ranges: seq<RowRange>): Log
    requires Ok(s)
  {
    if s.tracked.None? then s
    else
      var t := s.tracked.value;
      match t.status
      case Created(Some(existing)) => Log(existing, s.version + 1, true, None)
      case Created(None) =>
        s.(onDisk := if AgentOnly(s, t) then false else s.onDisk, tracked := None)
      case Deleted =>
        var s' := Log(t.diffBase, s.version + 1, true, None);
        s'.(tracked := Some(TrackRead(s')))
      case Modified =>
        var cs := Rejected(t, ranges);
        if cs == [] then s
        else
          var s' := s.(text := Apply(s.text, cs, 0), version := s.version + 1);
          s'.(tracked := Some(Schedule(t, User, s'.text, s'.version)))
  }

  ghost function Rejected(t: Tracked, ranges: seq<RowRange>): seq<Change<char>>
    requires TrackedOk(t)
  {
    RepRanges(Rows(t.diffBase), t.edits, Rows(t.snapshot));
    RejectChanges(t.edits, Select(t.edits, ranges, |Rows(t.snapshot)|), t.diffBase, t.snapshot)
  }

  ghost function StepFileChanged(s: Log, deleted: bool): Log {
    var s' := s.(onDisk := !deleted);
    if s.tracked.None? then s'
    else if s.tracked.value.status.Deleted? then
      if deleted then s'
      else var s'' := s'.(tracked := None); s''.(tracked := Some(TrackRead(s'')))
    else if deleted then s'.(tracked := None) else s'
  }

  ghost function Step(s: Log, e: Event): Log
    requires Ok(s) && Enabled(s, e)
  {
    match e
    case UserEdit(text) => StepUserEdit(s, text)
    case AgentRead => s.(tracked := Some(TrackRead(s)))
    case AgentCreate => s.(tracked := Some(TrackCreated(s)))
    case AgentEdit(text) => StepAgentEdit(s, text)
    case AgentDelete => StepAgentDelete(s)
    case StartUpdate(diff) => StepStartUpdate(s, diff)
    case StartCommit(git, committed) => StepStartCommit(s, git, committed)
    case FinishUpdate(hunks) => StepFinishUpdate(s, hunks)
    case Keep(startRow, endRow) => StepKeep(s, startRow, endRow)
    case KeepAll => StepKeepAll(s)
    case Reject(ranges) => StepReject(s, ranges)
    case FileChanged(deleted) => StepFileChanged(s, deleted)
  }

  // ----- the invariant holds in every run

  lemma NothingUnreviewed(text: string)
    ensures Rep(Rows(text), [], Rows(text))
  {
    assert Rows(text)[0..] == Rows(text)[0..];
  }

  lemma AllUnreviewed(text: string)
    ensures Rep(Rows(""), [Edit(0, 1, 0, |Rows(text)|)], Rows(text))
  {
    var e := Edit(0, 1, 0, |Rows(text)|);
    var b, s := Rows(""), Rows(text);
    assert b == [""];
    assert [e][1..] == [];
    hide Rows;
    assert b[1..] == [] == s[|s|..];
    assert Aligned(b, s, [], 1, |s|);
    assert b[0..0] == s[0..0];
    assert Aligned(b, s, [e], 0, 0);
    assert SeparatedFrom([], |s|);
    assert Separated([e]);
    assert StartsInside(b, s, [e]);
  }

  lemma TrackReadOk(s: Log)
    requires Ok(s)
    ensures TrackedOk(TrackRead(s))
  {
    hide Rep, Rows;
    if s.tracked.None? {
      NothingUnreviewed(s.text);
    }
  }

  lemma KeepOk(t: Tracked, mask: seq<bool>)
    requires TrackedOk(t) && |mask| == |t.edits|
    ensures Rep(Rows(KeptBase(t, mask)), Rest(t.edits, mask, 0), Rows(t.snapshot))
  {
    var b, s := Rows(t.diffBase), Rows(t.snapshot);
    hide *;
    TrackedMeans(t);
    RepParts(b, t.edits, s);
    SplitRep(b, s, t.edits, mask);
    KeptRows(t, mask);
  }

  lemma TrackedMeans(t: Tracked)
    requires TrackedOk(t)
    ensures Rep(Rows(t.diffBase), t.edits, Rows(t.snapshot))
  {
  }

  lemma KeptRows(t: Tracked, mask: seq<bool>)
    requires TrackedOk(t) && |mask| == |t.edits|
    ensures Aligned(Rows(t.diffBase), Rows(t.snapshot), t.edits, 0, 0)
    ensures Rows(KeptBase(t, mask)) ==
            Mid(Rows(t.diffBase), Rows(t.snapshot), t.edits, mask, 0, 0)
  {
    var b, s := Rows(t.diffBase), Rows(t.snapshot);
    assert KeptBase(t, mask) == Join(Mid(b, s, t.edits, mask, 0, 0));
    hide *;
    TrackedMeans(t);
    RepParts(b, t.edits, s);
    RowsHaveNoNewlines(t.diffBase);
    RowsHaveNoNewlines(t.snapshot);
    MidHasNoNewlines(b, s, t.edits, mask, 0, 0);
    MidNotEmpty(b, s, t.edits, mask, 0, 0);
    RowsOfJoin(Mid(b, s, t.edits, mask, 0, 0));
  }

  /** Every step keeps the invariant. */
  lemma StepOk(s: Log, e: Event)
    requires Ok(s) && Enabled(s, e)
    ensures Ok(Step(s, e))
  {
    hide Rows, Rep, KeptBase, Rest, KeepMask, Apply, Rejected, RejectChanges, UnitDiff, RowEdits, Merge;
    match e
    case UserEdit(text) =>
    case AgentRead =>
      TrackReadOk(s);
    case AgentCreate =>
      AllUnreviewed(s.text);
    case AgentEdit(text) =>
      TrackReadOk(s.(text := text, version := s.version + 1));
    case AgentDelete =>
      TrackReadOk(s);
    case StartUpdate(diff) =>
    case StartCommit(git, committed) =>
    case FinishUpdate(hunks) =>
      var f := s.tracked.value.inFlight.value;
      RowDiffIsRep(f.base, hunks, f.text);
    case Keep(startRow, endRow) =>
      if s.tracked.Some? && !s.tracked.value.status.Deleted? {
        KeepOk(s.tracked.value, KeepMask(s.tracked.value.edits, startRow, endRow));
      }
    case KeepAll =>
      if s.tracked.Some? {
        NothingUnreviewed(s.tracked.value.snapshot);
      }
    case Reject(ranges) =>
      if s.tracked.Some? {
        NothingUnreviewed(s.tracked.value.diffBase);
      }
    case FileChanged(deleted) =>
      NothingUnreviewed(s.text);
  }

  /** The newest text the log knows of: queued last, else under way, else the snapshot. */
  function NewestText(t: Tracked): string {
    if t.queue != [] then t.queue[|t.queue| - 1].text
    else if t.inFlight.Some? then t.inFlight.value.text
    else t.snapshot
  }

  /** No change of the buffer is ever lost. */
  ghost predicate UpToDate(s: Log) {
    s.tracked.Some? ==> NewestText(s.tracked.value) == s.text
  }

  lemma StepUpToDate(s: Log, e: Event)
    requires Ok(s) && Enabled(s, e) && UpToDate(s)
    ensures UpToDate(Step(s, e))
  {
    hide *;
    if e.StartUpdate? || e.StartCommit? || e.FinishUpdate? {
      UpdateUpToDate(s, e);
    } else if e.Keep? || e.KeepAll? {
      KeepUpToDate(s, e);
    } else if e.Reject? || e.FileChanged? {
      RejectUpToDate(s, e);
    } else {
      EditUpToDate(s, e);
    }
  }

  lemma UpdateUpToDate(s: Log, e: Event)
    requires Ok(s) && Enabled(s, e) && UpToDate(s) && (e.StartUpdate? || e.StartCommit? || e.FinishUpdate?)
    ensures UpToDate(Step(s, e))
  {
    hide Rows, Rep, KeptBase, UnitDiff, RowEdits, Merge, UpdateBase, CommitMask;
  }

  lemma KeepUpToDate(s: Log, e: Event)
    requires Ok(s) && Enabled(s, e) && UpToDate(s) && (e.Keep? || e.KeepAll?)
    ensures UpToDate(Step(s, e))
  {
    hide Rows, Rep, KeptBase, Rest, KeepMask, TrackedOk;
  }

  lemma RejectUpToDate(s: Log, e: Event)
    requires Ok(s) && Enabled(s, e) && UpToDate(s) && (e.Reject? || e.FileChanged?)
    ensures UpToDate(Step(s, e))
  {
    hide Rows, Rep, Apply, Rejected, TrackedOk;
  }

  lemma EditUpToDate(s: Log, e: Event)
    requires Ok(s) && Enabled(s, e) && UpToDate(s)
    requires e.UserEdit? || e.AgentRead? || e.AgentCreate? || e.AgentEdit? || e.AgentDelete?
    ensures UpToDate(Step(s, e))
  {
    hide Rows, Rep, TrackedOk;
  }

  /** A run: each step possible where it is taken, and each state what the step makes. */
  ghost predicate Run(states: seq<Log>, events: seq<Event>) {
    |states| == |events| + 1 &&
    forall k :: 0 <= k < |events| ==>
      Enabled(states[k], events[k]) &&
      (Ok(states[k]) ==> states[k + 1] == Step(states[k], events[k]))
  }

  /** The run theorem: from a buffer not yet tracked, under any interleaving of steps, the
      unreviewed edits represent the difference between the reviewed and the last seen text,
      and no change of the buffer is lost. */
  lemma {:induction false} EveryRunIsOk(states: seq<Log>, events: seq<Event>, k: nat)
    requires Run(states, events) && states[0].tracked.None? && k < |states|
    ensures Ok(states[k]) && UpToDate(states[k])
  {
    if k > 0 {
      EveryRunIsOk(states, events, k - 1);
      assert Enabled(states[k - 1], events[k - 1]);
      hide *;
      StepOk(states[k - 1], events[k - 1]);
      StepUpToDate(states[k - 1], events[k - 1]);
    }
  }

  predicate Idle(t: Tracked) {
    t.queue == [] && t.inFlight.None?
  }

  /** With nothing queued or under way, the reviewed text with every unreviewed edit made is
      the buffer, to the byte. */
  lemma IdleIsBuffer(states: seq<Log>, events: seq<Event>, k: nat)
    requires Run(states, events) && states[0].tracked.None? && k < |states|
    requires states[k].tracked.Some? && Idle(states[k].tracked.value)
    ensures var t := states[k].tracked.value;
            TrackedOk(t) && KeptBase(t, AllOf(t.edits)) == states[k].text
  {
    EveryRunIsOk(states, events, k);
    var t := states[k].tracked.value;
    assert TrackedOk(t) && t.snapshot == states[k].text;
    MakeAll(t);
  }

  lemma MakeAll(t: Tracked)
    requires TrackedOk(t)
    ensures KeptBase(t, AllOf(t.edits)) == t.snapshot
  {
    var b, s, mask := Rows(t.diffBase), Rows(t.snapshot), AllOf(t.edits);
    hide *;
    TrackedMeans(t);
    RepParts(b, t.edits, s);
    KeptRows(t, mask);
    ChooseAll(b, s, t.edits, mask, 0, 0, 0);
    assert s[0..] == s;
    JoinOfRows(KeptBase(t, mask));
    JoinOfRows(t.snapshot);
  }

  // ----- what a full reject restores

  datatype Outcome = Content(text: string) | NoFile

  function Restores(t: Tracked): Outcome {
    match t.status
    case Created(Some(existing)) => Content(existing)
    case Created(None) => NoFile
    case Modified => Content(t.diffBase)
    case Deleted => Content(t.diffBase)
  }

  /** The version an update follows. */
  function VersionBefore(t: Tracked, k: nat): nat
    requires k < |t.queue|
  {
    if k > 0 then t.queue[k - 1].version
    else if t.inFlight.Some? then t.inFlight.value.version
    else t.snapshotVersion
  }

  /** Nothing but the agent's doing is queued or under way: an update in the user's name is only
      the echo of the one before it. */
  ghost predicate AgentsOwn(t: Tracked) {
    && (t.inFlight.Some? ==> t.inFlight.value.base == t.diffBase)
    && (forall k :: 0 <= k < |t.queue| && t.queue[k].author == User ==>
          t.queue[k].version == VersionBefore(t, k))
  }

  predicate AgentStep(e: Event) {
    e.AgentRead? || e.AgentCreate? || e.AgentEdit? || e.AgentDelete? || e.StartUpdate? ||
    e.FinishUpdate?
  }

  /** An update of the agent's, or an echo, computes the base it found. */
  lemma UpdateKeepsBase(t: Tracked, diff: seq<Edit>)
    requires TrackedOk(t) && AgentsOwn(t) && t.inFlight.None? && t.queue != []
    requires UnitDiff(t.snapshot, diff, t.queue[0].text)
    requires t.queue[0].version == t.snapshotVersion ==> diff == []
    ensures UpdateBase(t, t.queue[0], diff) == t.diffBase
  {
    var u := t.queue[0];
    if u.author == User {
      assert u.version == VersionBefore(t, 0);
      assert UpdateEdits(t, u, diff) == [];
      var b, s := Rows(t.diffBase), Rows(t.snapshot);
      hide Rows, Join, Rebased, AllowedChanges, UpdateEdits, Rep;
      assert UpdateBase(t, u, diff) == Join(RebasedBase(b, t.edits, [], Rows(u.text)));
      RejectFeedback(b, s, Rows(u.text), t.edits, []);
      JoinOfRows(t.diffBase);
    }
  }

  /** No agent step changes what a full reject restores; the one exception is deleting a buffer
      the log holds as created, which drops it. */
  lemma AgentStepKeepsRestore(s: Log, e: Event)
    requires Ok(s) && Enabled(s, e) && AgentStep(e)
    requires s.tracked.Some? && AgentsOwn(s.tracked.value)
    ensures var t, s' := s.tracked.value, Step(s, e);
            if e.AgentDelete? && t.status.Created? then s'.tracked.None?
            else s'.tracked.Some? && AgentsOwn(s'.tracked.value)
                 && Restores(s'.tracked.value) == Restores(t)
  {
    AgentSteps(e);
    hide *;
    if e.StartUpdate? {
      StartKeepsRestore(s, e);
    } else if e.FinishUpdate? {
      FinishKeepsRestore(s, e);
    } else {
      EditKeepsRestore(s, e);
    }
  }

  lemma AgentSteps(e: Event)
    requires AgentStep(e)
    ensures e.AgentRead? || e.AgentCreate? || e.AgentEdit? || e.AgentDelete? || e.StartUpdate? || e.FinishUpdate?
  {
  }

  lemma StartKeepsRestore(s: Log, e: Event)
    requires Ok(s) && Enabled(s, e) && e.StartUpdate? && s.tracked.Some? && AgentsOwn(s.tracked.value)
    ensures var t, s' := s.tracked.value, Step(s, e);
            s'.tracked.Some? && AgentsOwn(s'.tracked.value) && Restores(s'.tracked.value) == Restores(t)
  {
    hide Rows, Rep, UnitDiff, UpdateBase, TrackedOk;
    UpdateKeepsBase(s.tracked.value, e.diff);
  }

  lemma FinishKeepsRestore(s: Log, e: Event)
    requires Ok(s) && Enabled(s, e) && e.FinishUpdate? && s.tracked.Some? && AgentsOwn(s.tracked.value)
    ensures var t, s' := s.tracked.value, Step(s, e);
            s'.tracked.Some? && AgentsOwn(s'.tracked.value) && Restores(s'.tracked.value) == Restores(t)
  {
    hide Rows, Rep, UnitDiff, RowEdits, Merge, TrackedOk;
  }

  lemma EditKeepsRestore(s: Log, e: Event)
    requires Ok(s) && Enabled(s, e) && s.tracked.Some? && AgentsOwn(s.tracked.value)
    requires e.AgentRead? || e.AgentCreate? || e.AgentEdit? || e.AgentDelete?
    ensures var t, s' := s.tracked.value, Step(s, e);
            if e.AgentDelete? && t.status.Created? then s'.tracked.None?
            else s'.tracked.Some? && AgentsOwn(s'.tracked.value)
                 && Restores(s'.tracked.value) == Restores(t)
  {
    hide Rows, Rep, TrackedOk;
  }

  lemma OkMeans(s: Log)
    requires Ok(s) && s.tracked.Some?
    ensures TrackedOk(s.tracked.value)
  {
  }

  /** Over whole runs of agent steps. */
  lemma {:induction false} AgentRunKeepsRestore(states: seq<Log>, events: seq<Event>, k: nat)
    requires Run(states, events) && k < |states|
    requires Ok(states[0]) && states[0].tracked.Some? && AgentsOwn(states[0].tracked.value)
    requires forall n :: 0 <= n < k ==> AgentStep(events[n])
    requires forall n :: 0 <= n < k && states[n].tracked.Some? && events[n].AgentDelete? ==>
               !states[n].tracked.value.status.Created?
    ensures Ok(states[k]) && states[k].tracked.Some? && AgentsOwn(states[k].tracked.value)
    ensures Restores(states[k].tracked.value) == Restores(states[0].tracked.value)
  {
    if k > 0 {
      AgentRunKeepsRestore(states, events, k - 1);
      assert Enabled(states[k - 1], events[k - 1]);
      StepOk(states[k - 1], events[k - 1]);
      AgentStepKeepsRestore(states[k - 1], events[k - 1]);
      hide *;
    }
  }

  /** A range over the whole buffer selects every edit. */
  lemma WholeSelectsAll(b: seq<string>, es: seq<Edit>, s: seq<string>, selected: seq<bool>)
    requires Rep(b, es, s) && |s| > 0
    requires selected == Select(es, [RowRange(0, |s| - 1)], |s|)
    ensures forall k :: 0 <= k < |es| ==> selected[k]
  {
    var rs := [RowRange(0, |s| - 1)];
    RepOrdered(b, es, s);
    forall k | 0 <= k < |es|
      ensures selected[k]
    {
      RepEdit(b, s, es, k);
      assert Touches(rs[0], es[k], |s|);
      SelectIsTouched(es, rs, |s|, k);
    }
  }

  /** Rejecting the whole buffer does restore it. */
  lemma FullRejectRestores(s: Log, rows: nat)
    requires Ok(s) && s.tracked.Some? && rows == |Rows(s.tracked.value.snapshot)|
    requires Enabled(s, Reject([RowRange(0, rows - 1)]))
    ensures var t, s' := s.tracked.value, StepReject(s, [RowRange(0, rows - 1)]);
            match Restores(t)
            case Content(text) => s'.text == text
            case NoFile => s'.tracked.None? && (AgentOnly(s, t) ==> !s'.onDisk)
  {
    hide Rejected, Apply, Rows, Rep;
    if s.tracked.value.status.Modified? {
      RejectWhole(s.tracked.value, rows);
      ApplyNone(s.text);
    }
  }

  lemma ApplyNone(t: string)
    ensures Apply(t, [], 0) == t
  {
  }

  lemma RejectWhole(t: Tracked, rows: nat)
    requires TrackedOk(t) && rows == |Rows(t.snapshot)|
    ensures Apply(t.snapshot, Rejected(t, [RowRange(0, rows - 1)]), 0) == t.diffBase
  {
    hide *;
    var b, s := Rows(t.diffBase), Rows(t.snapshot);
    var selected := Select(t.edits, [RowRange(0, rows - 1)], rows);
    TrackedMeans(t);
    RejectedIs(t, [RowRange(0, rows - 1)]);
    WholeSelectsAll(b, t.edits, s, selected);
    RejectTheorem(t.edits, selected, t.diffBase, t.snapshot);
    JoinOfRows(t.diffBase);
    JoinOfRows(Apply(t.snapshot, RejectChanges(t.edits, selected, t.diffBase, t.snapshot), 0));
  }

  /** The update a reject schedules, on what the log holds at the reject: with the edits the buffer
      reports, it leaves the reviewed text as it is unless one of them slips. */
  lemma RejectKeepsBase(s: Log, ranges: seq<RowRange>)
    requires Ok(s) && s.tracked.Some? && Enabled(s, Reject(ranges))
    requires var t := s.tracked.value;
             t.status.Modified? && Rejected(t, ranges) != []
    ensures var t, t' := s.tracked.value, StepReject(s, ranges).tracked.value;
            var selected := Select(t.edits, ranges, |Rows(t.snapshot)|);
            && Ranges(t.edits) && |t'.queue| == |t.queue| + 1
            && var diff, u := RejectDiff(t.edits, selected, t.diffBase, t.snapshot), t'.queue[|t.queue|];
               && UnitDiff(t'.snapshot, diff, u.text)
               && (!AnySlips(t.edits, Rejects(t.edits, selected, t.diffBase, t.snapshot),
                             Rows(t.diffBase), Rows(t.snapshot), 0)
                   ==> UpdateBase(t', u, diff) == t.diffBase)
  {
    hide *;
    var t, s' := s.tracked.value, StepReject(s, ranges);
    OkMeans(s);
    TrackedMeans(t);
    RejectedIs(t, ranges);
    RejectSchedules(s, ranges);
    var t' := s'.tracked.value;
    var selected := Select(t.edits, ranges, |Rows(t.snapshot)|);
    AfterIs(t.edits, selected, t.diffBase, t.snapshot);
    FeedbackIsApplied(t.edits, selected, t.diffBase, t.snapshot);
    var diff := RejectDiff(t.edits, selected, t.diffBase, t.snapshot);
    if !AnySlips(t.edits, Rejects(t.edits, selected, t.diffBase, t.snapshot),
                 Rows(t.diffBase), Rows(t.snapshot), 0)
    {
      RejectLeavesBase(t.edits, selected, t.diffBase, t.snapshot);
      UserUpdateBase(t', t'.queue[|t.queue|], diff);
      JoinOfRows(t.diffBase);
    }
  }

  /** With nothing unreviewed, whatever the user's update brings counts as reviewed.  So it is with
      the undo of a full reject once the log has seen the reject: the rows the agent wrote come back
      as the user's, and the reviewed text takes them all. */
  lemma UndoCountsAsReviewed(s: Log, undo: seq<Change<char>>, diff: seq<Edit>)
    requires Ok(s) && s.tracked.Some? && s.tracked.value.edits == [] && Idle(s.tracked.value)
    requires UnitDiff(s.tracked.value.snapshot, diff, Apply(s.text, undo, 0))
    ensures var t' := StepUserEdit(s, Apply(s.text, undo, 0)).tracked.value;
            && t'.queue == [Update(User, Apply(s.text, undo, 0), s.version + 1)]
            && UpdateBase(t', t'.queue[0], diff) == Apply(s.text, undo, 0)
  {
    hide *;
    var t, text := s.tracked.value, Apply(s.text, undo, 0);
    OkMeans(s);
    TrackedMeans(t);
    UserEditSchedules(s, text);
    var t' := StepUserEdit(s, text).tracked.value;
    RowDiffIsRep(t.snapshot, diff, text);
    UnitDiffAligned(t.snapshot, diff, text);
    var vs := Merge(RowEdits(t.snapshot, diff, text, 0, 0));
    NothingHeldBack(Rows(t.diffBase), Rows(t.snapshot), Rows(text), vs);
    UserUpdateBase(t', t'.queue[0], diff);
    JoinOfRows(text);
  }

  lemma UserEditSchedules(s: Log, text: string)
    requires s.tracked.Some? && Idle(s.tracked.value)
    ensures var s' := StepUserEdit(s, text);
            s'.tracked == Some(s.tracked.value.(queue := [Update(User, text, s.version + 1)]))
  {
    var u := Update(User, text, s.version + 1);
    assert [] + [u] == [u];
  }

  /** Over no unreviewed edits the rebase takes the user's edits whole. */
  lemma NothingHeldBack(b: seq<string>, o: seq<string>, n: seq<string>, vs: seq<Edit>)
    requires Rep(b, [], o) && Rep(o, vs, n)
    ensures RebasedBase(b, [], vs, n) == n
  {
    RebaseTheorem(b, o, n, [], vs);
    assert Moved([], AllowedChanges([], vs, n), 0) == [];
    assert forall k :: 0 <= k < |vs| ==> Allowed([], vs[k]);
    hide RebasedBase, AllowedOnly, Rep;
    assert RebasedBase(b, [], vs, n)[0..] == RebasedBase(b, [], vs, n) && n[0..] == n;
  }

  lemma RejectSchedules(s: Log, ranges: seq<RowRange>)
    requires Ok(s) && s.tracked.Some? && Enabled(s, Reject(ranges)) && s.tracked.value.status.Modified?
    requires Rejected(s.tracked.value, ranges) != []
    ensures var t, s' := s.tracked.value, StepReject(s, ranges);
            && s.text == t.snapshot && s'.tracked.Some?
            && var u := Update(User, Apply(t.snapshot, Rejected(t, ranges), 0), s.version + 1);
               s'.tracked.value == t.(queue := t.queue + [u])
  {
    hide Rejected, Apply, Rep, Rows;
  }

  lemma UserUpdateBase(t: Tracked, u: Update, diff: seq<Edit>)
    requires u.author == User && UnitDiff(t.snapshot, diff, u.text)
    ensures UpdateBase(t, u, diff) ==
            Join(RebasedBase(Rows(t.diffBase), t.edits, Merge(RowEdits(t.snapshot, diff, u.text, 0, 0)), Rows(u.text)))
  {
    hide Rows, Join, RebasedBase, Merge, RowEdits;
  }

  lemma RejectedIs(t: Tracked, ranges: seq<RowRange>)
    requires TrackedOk(t)
    ensures Ranges(t.edits)
    ensures Rejected(t, ranges) ==
            RejectChanges(t.edits, Select(t.edits, ranges, |Rows(t.snapshot)|), t.diffBase, t.snapshot)
  {
    RepRanges(Rows(t.diffBase), t.edits, Rows(t.snapshot));
  }

  // ----- the log in place

  /** The log of one buffer, changed in place.  The edits between two texts, as the buffer or
      the differ reports them, come in as parameters. */
  class BufferLog {
    var text: string
    var version: nat
    var onDisk: bool
    var tracked: Option<Tracked>

    ghost function State(): Log
      reads this
    {
      Log(text, version, onDisk, tracked)
    }

    constructor (text: string, onDisk: bool)
      ensures State() == Log(text, 0, onDisk, None) && Ok(State())
    {
      this.text, this.version, this.onDisk, this.tracked := text, 0, onDisk, None;
    }

    method OnUserEdit(newText: string)
      modifies this
      ensures State() == StepUserEdit(old(State()), newText)
    {
      text, version := newText, version + 1;
      if tracked.Some? {
        tracked := Some(Schedule(tracked.value, User, text, version));
      }
    }

    /** Tracks the buffer, or starts over when it is created. */
    method TrackBuffer(isCreated: bool) returns (t: Tracked)
      modifies this`tracked
      ensures t == if isCreated then TrackCreated(old(State())) else TrackRead(old(State()))
      ensures State() == old(State()).(tracked := Some(t))
    {
      if isCreated {
        var status;
        if tracked.Some? {
          var was := tracked.value;
          tracked := None;
          match was.status {
            case Created(existing) => status := Created(existing);
            case _ => status := Created(Some(was.diffBase));
          }
        } else if onDisk {
          status := Created(Some(text));
        } else {
          status := Created(None);
        }
        var rows := Rows(text);
        t := Tracked("", [Edit(0, 1, 0, |rows|)], text, version, status, version, [], None);
      } else if tracked.Some? {
        t := tracked.value.(version := version);
      } else {
        t := Tracked(text, [], text, version, Modified, version, [], None);
      }
      tracked := Some(t);
    }

    method OnAgentEdit(newText: string)
      modifies this
      ensures State() == StepAgentEdit(old(State()), newText)
    {
      text, version := newText, version + 1;
      var t := TrackBuffer(false);
      if t.status.Deleted? {
        t := t.(status := Modified);
      }
      tracked := Some(Schedule(t, Agent, text, version));
    }

    method WillDelete()
      modifies this
      ensures State() == StepAgentDelete(old(State()))
    {
      var t := TrackBuffer(false);
      match t.status {
        case Created(_) =>
          tracked := None;
        case Modified =>
          text, version := "", version + 1;
          t := Schedule(t.(status := Deleted), Agent, text, version);
          tracked := Some(Schedule(t, User, text, version));
        case Deleted =>
      }
    }

    /** Takes the oldest queued update and computes its base; the update is then under way. */
    method BeginUpdate(edits: seq<PointEdit>, ghost diff: seq<Edit>)
      requires Ok(State()) && Enabled(State(), StartUpdate(diff))
      requires edits == PointEdits(tracked.value.snapshot, diff, tracked.value.queue[0].text, 0, 0)
      modifies this`tracked
      ensures State() == StepStartUpdate(old(State()), diff)
    {
      var t := tracked.value;
      var u := t.queue[0];
      var base := t.diffBase;
      if u.author == User {
        var rowEdits := DiffSnapshots(edits, t.snapshot, u.text, diff);
        RowDiffIsRep(t.snapshot, diff, u.text);
        assert rowEdits == UpdateEdits(t, u, diff);
        hide Rep, Rows, RebasedBase, UpdateEdits, Merge, Widen, UnitDiff;
        var changed;
        base, changed := ApplyNonConflictingEdits(t.edits, rowEdits, t.diffBase, u.text, Rows(t.snapshot));
        JoinOfRows(base);
      }
      tracked := Some(t.(queue := t.queue[1..], inFlight := Some(InFlight(base, u.text, u.version))));
    }

    method BeginCommit(git: string, committed: seq<Edit>)
      requires Ok(State()) && Enabled(State(), StartCommit(git, committed))
      modifies this`tracked
      ensures State() == StepStartCommit(old(State()), git, committed)
    {
      var t := tracked.value;
      hide Rep, Rows, Mid, CommitMask, LineDiff;
      var base := KeepCommittedEdits(t.edits, t.diffBase, t.snapshot, git, committed);
      JoinOfRows(base);
      tracked := Some(t.(inFlight := Some(InFlight(base, t.snapshot, t.snapshotVersion))));
    }

    /** Writes back what the update under way computed, with the edits of its diff. */
    method EndUpdate(hunks: seq<PointEdit>, ghost diff: seq<Edit>)
      requires Enabled(State(), FinishUpdate(diff))
      requires var f := tracked.value.inFlight.value; hunks == PointEdits(f.base, diff, f.text, 0, 0)
      modifies this`tracked
      ensures State() == StepFinishUpdate(old(State()), diff)
    {
      hide Aligned, Separated, PointEdits, Widen, Merge, Rows;
      var t := tracked.value;
      var f := t.inFlight.value;
      var widened := Widen(hunks, f.base, f.text);
      HunksNotEmpty(f.base, diff, f.text, widened);
      NotEmptyAll(widened);
      var es := PushAll(widened);
      tracked := Some(t.(diffBase := f.base, snapshot := f.text, snapshotVersion := f.version,
                         edits := es, inFlight := None));
    }

    method KeepInRange(startRow: nat, endRow: nat)
      requires Ok(State())
      modifies this`tracked
      ensures State() == StepKeep(old(State()), startRow, endRow)
    {
      if tracked.None? {
        return;
      }
      var t := tracked.value;
      if t.status.Deleted? {
        tracked := None;
      } else {
        hide Rep, Rows, Mid, KeepMask, Rest, Aligned;
        var base, rest := KeepEditsInRange(t.edits, t.diffBase, t.snapshot, startRow, endRow);
        JoinOfRows(base);
        t := t.(diffBase := base, edits := rest);
        if rest == [] && t.status.Created? {
          t := t.(status := Modified);
        }
        tracked := Some(Schedule(t, User, text, version));
      }
    }

    method KeepAllEdits()
      modifies this`tracked
      ensures State() == StepKeepAll(old(State()))
    {
      if tracked.None? {
        return;
      }
      var t := tracked.value;
      if t.status.Deleted? {
        tracked := None;
      } else {
        if t.status.Created? {
          t := t.(status := Modified);
        }
        tracked := Some(Schedule(t.(edits := [], diffBase := t.snapshot), User, text, version));
      }
    }

    /** Rejects what the ranges touch, and returns what undoing it would put back. */
    method RejectInRanges(ranges: seq<RowRange>) returns (undo: seq<Change<char>>)
      requires Ok(State()) && Enabled(State(), Reject(ranges))
      modifies this
      ensures State() == StepReject(old(State()), ranges)
      ensures old(tracked).Some? && CanUndo(old(tracked).value.status) ==>
                Apply(text, undo, 0) == old(text)
    {
      hide Rows, Rep, Apply, Rejected, TrackedOk;
      undo := [];
      if tracked.None? {
        return;
      }
      var t := tracked.value;
      match t.status {
        case Created(Some(existing)) =>
          undo := [Change(0, |existing|, text)];
          UndoWhole(existing, text);
          text, version, onDisk, tracked := existing, version + 1, true, None;
        case Created(None) =>
          if t.version == version && text == t.snapshot {
            onDisk := false;
          }
          tracked := None;
        case Deleted =>
          text, version, onDisk, tracked := t.diffBase, version + 1, true, None;
          var read := TrackBuffer(false);
        case Modified =>
          var changes;
          text, changes, undo := RejectEdits(t, ranges);
          if changes {
            version := version + 1;
            tracked := Some(Schedule(t, User, text, version));
          }
      }
    }

    /** Puts back what the last reject took out.  A buffer the reject dropped is tracked again,
        as edited by the agent; in one still tracked the change counts as the user's. */
    method UndoLastReject(undo: seq<Change<char>>)
      modifies this
      ensures State() == if undo == [] then old(State())
                         else if old(tracked).None? then StepAgentEdit(old(State()), Apply(old(text), undo, 0))
                         else StepUserEdit(old(State()), Apply(old(text), undo, 0))
    {
      if undo != [] {
        var restored := Apply(text, undo, 0);
        if tracked.None? {
          OnAgentEdit(restored);
        } else {
          OnUserEdit(restored);
        }
      }
    }

    method OnFileChanged(deleted: bool)
      modifies this
      ensures State() == StepFileChanged(old(State()), deleted)
    {
      onDisk := !deleted;
      if tracked.None? {
        return;
      }
      if tracked.value.status.Deleted? {
        if !deleted {
          tracked := None;
          var t := TrackBuffer(false);
        }
      } else if deleted {
        tracked := None;
      }
    }
  }

  /** The rejects that can be undone: restoring a file to what it was before the agent wrote it,
      and reverting edits. */
  predicate CanUndo(status: Status) {
    status.Modified? || (status.Created? && status.existing.Some?)
  }

  lemma UndoWhole(existing: string, text: string)
    ensures Apply(existing, [Change(0, |existing|, text)], 0) == text
  {
    var c := Change(0, |existing|, text);
    assert [c][1..] == [];
    assert Apply(existing, [], |existing|) == "";
  }

  lemma HunksNotEmpty(o: string, es: seq<Edit>, n: string, rs: seq<Edit>)
    requires UnitDiff(o, es, n) && rs == RowEdits(o, es, n, 0, 0)
    ensures forall k :: 0 <= k < |rs| ==> !rs[k].IsEmpty()
  {
    hide RowEdits;
    RowEditCount(o, es, n, 0, 0);
    forall k | 0 <= k < |rs|
      ensures !rs[k].IsEmpty()
    {
      RowEditsNotEmpty(o, es, n, 0, 0, k);
    }
  }

  /** The buffer edits of a reject, made, with what it takes to undo them. */
  method RejectEdits(t: Tracked, ranges: seq<RowRange>)
      returns (text: string, changed: bool, undo: seq<Change<char>>)
    requires TrackedOk(t)
    ensures changed <==> Rejected(t, ranges) != []
    ensures text == Apply(t.snapshot, Rejected(t, ranges), 0)
    ensures Apply(text, undo, 0) == t.snapshot
    ensures !changed ==> text == t.snapshot
  {
    hide *;
    TrackedMeans(t);
    RejectedIs(t, ranges);
    var rows := Rows(t.snapshot);
    var selected := SelectToReject(t.edits, ranges, |rows|);
    var changes := CollectRejects(t.edits, selected, t.diffBase, t.snapshot);
    UndoRestores(t.edits, selected, t.diffBase, t.snapshot);
    text := Apply(t.snapshot, changes, 0);
    undo := UndoChanges(t.snapshot, changes, 0);
    changed := changes != [];
    ApplyNone(t.snapshot);
  }
}

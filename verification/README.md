# Agent-edit review, transcripts, notifications and the tracking issue

A Dafny model of four parts of the repository, and proofs of what they promise.

**The agent-edit review engine** (`crates/action_log`). A tracked buffer holds a reviewed text,
the text last seen, and the unreviewed row edits between the two. User edits that touch no
unreviewed edit are carried over to the reviewed text; keeping, committing and rejecting move
edits across the boundary; updates are queued, start, and finish later.

- `Texts`: a text as rows and as bytes; replacing bytes between row starts is splicing rows.
- `Patches`: lists of edits between two sequences. `Rep(b, es, s)` is the engine's invariant: the
  edits are ordered and strictly separated, each starts on a row that exists, and the gaps
  between them read the same on both sides. `Mid` is the sequence with chosen edits made and the
  others not; `Rest` and `Chosen` are the patches on either side of it.
- `RowDiff`: from edits between positions to edits between rows, and merging those that meet.
- `Rebase`: `apply_non_conflicting_edits`, with its two cursors and running deltas.
- `Composing`: the single patch from the rebased base to the new text.
- `Review`: keep, commit, reject and undo.
- `Feedback`: how a reject comes back to the log as user edits.
- `ActionLog`: the log of one buffer as a state machine (`Step`, `Run`) and as a class,
  `BufferLog`, whose methods use the loops above and are proved to take exactly those steps.
- `LogRuns`: what the steps do to the reviewed text and to what a reject restores, over single
  steps and over whole runs of the user's and of the agent's.

**The transcript reader** (`crates/agent_sessions`). `Transcript` follows an append-only file in
windows, with a byte cap, a growing budget and a resume cursor. `Heads` is the cache of transcript
heads and the search for the transcript that continues another.

**The notifier** (`crates/agent_notify`). `Notify` is the state of one watched tab as a state
machine over whole event traces, and the class `WatchedTab` that takes the same steps in place.

**The tracking issue** (`script/`). `Magnets` holds the printer of one script and the parser of
the other, over the string operations in `Strings` and the stable sort in `Sorting`.

Loops of the source are loops here, and objects it changes in place are classes. A method's
contract ties it to a specification function or states the property itself; the lemmas say what
is true of those functions for all inputs, all runs and all traces.

Where the code and its surroundings leave something to others, the model says what it takes from
them: the buffer and the differ report separated edits between two texts, each of which changes
something (`RowDiff.UnitDiff`), and a line diff reports ordered edits (`Review.LineDiff`). Where a
result needs the differ to find nothing between equal texts it says so (`LogRuns.NoHunksIfEqual`).

Three results are about where a promise stops.

- A reject comes back to the log as user edits of rows, and is meant to leave the reviewed text
  alone (`Rebase.RejectFeedback`). `Feedback.FeedbackIsApplied` says exactly when the log applies
  one of them to the reviewed text, for every patch and every selection: when a rejected edit
  slips. An edit escapes when it left at most one row, that row is blank, and so is the row the
  reject puts there; the widening rule then moves it one row on, off the rows it was made on. It
  slips when nothing stands in its way there: no unreviewed edit without rows, and no edit merged
  with it that does not escape itself. When none slips the reviewed text stays as it is
  (`Feedback.RejectLeavesBase`); one that slips can still put back what is there, and for the
  reject of one edit `Feedback.OneRejectedChangesBase` says exactly when the text changes: when the
  edit slips and adds or takes rows. An escape needs a hunk that is not trimmed:
  `Feedback.TrimmedLeavesBase` proves that rejecting trimmed edits never touches the reviewed text.
  The rule itself can make such edits of a differ's hunks: `Feedback.GitHunkEscapes` takes the
  hunks `-0,0 +1,2` and `-2 +3,0` that a git diff without context lines
  (`crates/buffer_diff/src/buffer_diff.rs:1131-1139`) has between two short texts, and the reviewed
  text gains a blank row from the reject of the second.
- Without its last condition the widening of an edit to rows would lose a newline appended to the
  last row, and exactly then (`RowDiff.GuardIsNeeded`).
- The single pass that selects edits to reject finds the edits an all-pairs test finds, for every
  list of edits in the buffer, if and only if each row some range covers is covered by the first
  range, in the order they come, that ends at or after it (`Review.PassIsExact`). Ranges ordered by
  start are such a list, some in another order are too (`Review.UnsortedCanCover`), and
  `Review.UnsortedRangesMiss` is one that misses an edit.

## Model

| member | source | states |
|---|---|---|
| Texts.ReplaceRowsSplices | crates/action_log/src/action_log.rs:1189-1203 | replacing the bytes between two clipped row starts by the bytes of rows of another text splices the rows, for every pair of row runs that start on existing rows and reach the end of their texts together |
| RowDiff.PointRoundTrip | crates/action_log/src/action_log.rs:1236-1240 | converting an offset to a point and back is the identity, for every offset of every text |
| RowDiff.RowStartIsPointOffset | crates/action_log/src/action_log.rs:1189-1198 | the offset of the start of a row, clipped to the last point or not, is where the row starts, and the end of the text for a row past the last |
| RowDiff.RowEditShape | crates/action_log/src/action_log.rs:1235-1258 | a widened edit starts on existing rows and starts and ends on rows that fit the positions on both sides alike |
| RowDiff.RowEditExactly | crates/action_log/src/action_log.rs:1235-1258 | the widening rule on the texts: the edit starts a row later exactly when a newline follows its start in both texts, and ends without its last row exactly when it starts at a row start and ends at one in both |
| RowDiff.RowEditNotEmpty | crates/action_log/src/action_log.rs:1235-1258 | only an edit that changes nothing widens to an empty row edit |
| RowDiff.GapRows | crates/action_log/src/action_log.rs:1235-1258 | the rows between two widened edits are equal in both texts |
| RowDiff.MergeNeverShrinks | crates/action_log/src/action_log.rs:1220-1225 | overwriting the end of the pending edit by the end of the next never shrinks it, on either side |
| RowDiff.MergeKeepsApart | crates/action_log/src/action_log.rs:1220-1228 | edits with a row between them are never merged |
| RowDiff.MergeJoins | crates/action_log/src/action_log.rs:1220-1228 | a run of edits in which each meets the next becomes one, from its first row to its last |
| RowDiff.RowDiffIsRep | crates/action_log/src/action_log.rs:1211-1233 | for every list of separated edits between two texts, the widened and merged edits satisfy `Rep` on the rows of the texts |
| RowDiff.WidenedEditsSplice | crates/action_log/src/action_log.rs:1189-1203 | every row edit of a diff can be made on the bytes, also one that reaches a last row without newline |
| RowDiff.WidenedEditMakesText | crates/action_log/src/action_log.rs:1235-1258 | for a text changed in one place, making the widened edit on the bytes gives the new text exactly |
| RowDiff.GuardIsNeeded | crates/action_log/src/action_log.rs:1236-1241 | without the condition that the edit does not start at the last point, that holds if and only if the edit does not append a newline to the last row |
| RowDiff.DiffSnapshots | crates/action_log/src/action_log.rs:1211-1233 | the loop computes the widened edits merged, and for every diff between the texts they satisfy `Rep` on their rows |
| RowDiff.MergeRowEdits | crates/action_log/src/action_log.rs:1219-1231 | the peeking loop computes the merge |
| RowDiff.PushAll | crates/action_log/src/action_log.rs:490-512 | pushing the hunks one by one onto a patch drops the empty ones and merges the others as the row diff does |
| Patches.SplitRep | crates/action_log/src/action_log.rs:661-696 | making any choice of the edits in the base leaves a represented patch of the others, shifted by the running delta |
| Patches.ChosenRep | crates/action_log/src/action_log.rs:848-873 | between the base and the rows with only the chosen edits made, the chosen edits are a represented patch |
| Patches.RepInverse | crates/action_log/src/action_log.rs:848-873 | a patch read backwards is a represented patch from the snapshot to the base |
| Rebase.ConflictMeans | crates/action_log/src/action_log.rs:1161-1170 | the conflict test on rows: two edits with rows conflict when they share one, an insertion strictly inside the unreviewed rows, and where the unreviewed edit left none touching the place is enough |
| Rebase.OverlapMeans | crates/action_log/src/action_log.rs:1173-1176 | the look-ahead test on rows: a shared row, or an insertion or an empty place strictly inside |
| Rebase.RebaseSquare | crates/action_log/src/action_log.rs:1185-1205 | making the same untouched changes on both sides of a patch leaves that patch between the results, moved |
| Rebase.RebaseTheorem | crates/action_log/src/action_log.rs:1145-1209 | the rebased base reaches the new rows by the moved unreviewed edits, none lost, and then by exactly the user edits that conflict; without those the first step is all |
| Rebase.MovedKeepsRows | crates/action_log/src/action_log.rs:1145-1209 | in the first of these steps every unreviewed edit has the rows it had on both sides |
| Composing.ComposeAligned | crates/action_log/src/action_log.rs:1145-1209 | composing a patch from b to m with one from m to n gives a patch from b to n, for all patches |
| Composing.StaysApart | crates/action_log/src/action_log.rs:1160-1170 | an unreviewed edit that no user edit touches is touched by no conflicting edit after both have been moved by the changes applied |
| Composing.StaysTouching | crates/action_log/src/action_log.rs:1160-1170 | every conflicting user edit still touches an unreviewed edit after both have been moved |
| Composing.ComposeSpans | crates/action_log/src/action_log.rs:1145-1209 | each edit of a composition reaches exactly from where its group of edits starts to where it ends, on both sides |
| Composing.GroupsShareOut | crates/action_log/src/action_log.rs:1145-1209 | the groups share out all edits of both patches, in order, each an edit alone or a chain of edits that touch |
| Composing.ChainCovers | crates/action_log/src/action_log.rs:1160-1181 | every row between the ends of a chain lies in the range of one of its edits |
| Composing.OnePatch | crates/action_log/src/action_log.rs:1145-1209 | one patch turns the rebased base into the new rows; the moved unreviewed edits and the conflicting user edits are shared out among its edits in order, each of them one unreviewed edit alone or a chain of both that touch, reaching over no row that is in none of them; so it has no more edits than before, and without conflicts it is the unreviewed edits |
| Composing.UntouchedKeepsRows | crates/action_log/src/action_log.rs:1145-1209 | in that patch every unreviewed edit no user edit touches is present with its exact old and new rows |
| Rebase.RejectFeedback | crates/action_log/src/action_log.rs:1157-1208 | user edits that span exactly the new ranges of unreviewed edits are never allowed, and the base stays as it is |
| Feedback.RejectIsDiff | crates/action_log/src/action_log.rs:848-873 | for every patch and selection the buffer edits of a reject are a diff from the snapshot to what the reject leaves: separated, not empty, and one for each selected edit that changes the text, between the starts of its rows |
| Feedback.NewlineAtRowStart | crates/action_log/src/action_log.rs:1236-1240 | the character test of the widening rule, at a row start, is whether that row is blank and not the last |
| Feedback.ComesBackAs | crates/action_log/src/action_log.rs:1235-1258 | the row edit the rule makes of any edit between row starts, in each of its cases |
| Feedback.MergeByPairs | crates/action_log/src/action_log.rs:1220-1228 | of the edits a reject comes back as, one absorbs the next exactly when they meet, and never a third |
| Feedback.AllowedAlone | crates/action_log/src/action_log.rs:1157-1183 | one that comes back alone is applied if and only if it escapes and no unreviewed edit without rows stands where it ends |
| Feedback.AllowedPair | crates/action_log/src/action_log.rs:1157-1183 | two that come back as one are applied if and only if both escape |
| Feedback.FeedbackIsApplied | crates/action_log/src/action_log.rs:1157-1208 | for every patch and every selection, among the merged row edits a reject comes back as there is one the rebase applies if and only if a rejected edit slips |
| Feedback.OneRejected | crates/action_log/src/action_log.rs:1157-1208 | for the reject of any one edit of any patch: if and only if it changes the text and escapes, and no unreviewed edit without rows stands where it comes back |
| Feedback.OneRejectedChangesBase | crates/action_log/src/action_log.rs:1157-1208 | the rebase after the reject of one edit changes the base if and only if the edit escapes, no unreviewed edit without rows stands where it comes back, and it adds or takes rows |
| Feedback.RejectLeavesBase | crates/action_log/src/action_log.rs:1157-1208 | when none slips, the rebase after the reject gives the base it was given |
| Feedback.TrimmedLeavesBase | crates/action_log/src/action_log.rs:1157-1208 | rejecting any selection of edits trimmed at both ends leaves the base as it is |
| Feedback.GitHunkEscapes | crates/action_log/src/action_log.rs:490-512 | two git hunks whose widened edits satisfy `Rep`, and whose reject is applied: the base gains a blank row |
| ActionLog.RejectKeepsBase | crates/action_log/src/action_log.rs:338-349 | in the log, the update a reject schedules keeps the reviewed text it is computed on unless an edit slips |
| ActionLog.UndoCountsAsReviewed | crates/action_log/src/action_log.rs:987-1006 | once the log has seen a full reject, undoing it brings the agent's rows back as the user's: the reviewed text takes all of them |
| Rebase.PassOldEdits | crates/action_log/src/action_log.rs:1157-1183 | the inner loop sees a conflict exactly when the all-pairs test does, skips only edits that test forbids, and keeps the rebased delta |
| Rebase.NextEditAfter | crates/action_log/src/action_log.rs:1173-1181 | looking ahead by overlap misses no conflict: an edit that does not overlap lies after the unreviewed edit, and so do all later ones |
| Rebase.EditLands | crates/action_log/src/action_log.rs:1186-1203 | an applied edit, translated by the two deltas, lies inside the base as it stands, so no cast wraps, and the byte replacement is a row splice |
| Rebase.ApplyNonConflictingEdits | crates/action_log/src/action_log.rs:1145-1209 | the two-cursor loop applies exactly the user edits the all-pairs test allows, and reports whether there was one |
| Review.KeepEditsInRange | crates/action_log/src/action_log.rs:661-696 | keeping a row range makes exactly the edits it touches in the base, keeps the others with shifted old rows, and preserves `Rep` |
| Review.InRangeMeans | crates/action_log/src/action_log.rs:668-671 | a kept edit is one whose rows, the one it ends before counted in, the range has one of |
| Review.KeepWholeIsKeepAll | crates/action_log/src/action_log.rs:906-916 | keeping a range over the whole buffer gives the base and the empty list that keeping all edits gives |
| Review.ReplayEdits | crates/action_log/src/action_log.rs:2517-2541 | making the unreviewed edits in the base one by one gives the snapshot to the byte, for every represented patch |
| Review.KeepCommittedEdits | crates/action_log/src/action_log.rs:390-434 | the single pass over committed and unreviewed edits makes exactly those for which some committed edit has the same old range and the same new text; base and remaining edits satisfy `Rep` |
| Review.MatchDecides | crates/action_log/src/action_log.rs:402-427 | when the pass leaves an unreviewed edit behind, the committed edit at hand has decided it as the all-pairs test would |
| Review.CommittedOnRows | crates/action_log/src/action_log.rs:402-408 | when the committed edits are a patch to the committed text, an unreviewed edit counts as committed exactly when one of them replaces the same rows by the same rows |
| Review.TouchesMeans | crates/action_log/src/action_log.rs:836-846 | a range touches an edit when they have a row of the buffer in common, the one the edit ends before counted in |
| Review.SelectToReject | crates/action_log/src/action_log.rs:816-846 | the loop over ranges and edits selects what `Select` does |
| Review.SelectIs | crates/action_log/src/action_log.rs:836-846 | what the pass decides for an edit depends on no edit before it: the first range, in any order they come, that ends at or after the edit's first row decides |
| Review.SelectIsTouched | crates/action_log/src/action_log.rs:836-846 | for ranges ordered by start the selected edits are exactly those some range touches; for any ranges no other edit is selected |
| Review.PassIsExact | crates/action_log/src/action_log.rs:836-846 | for ranges that end no earlier than they start, the pass selects exactly the touched edits of every list of edits in the buffer if and only if each covered row is covered by the first range that ends at or after it |
| Review.SortedCovers | crates/action_log/src/action_log.rs:836-846 | ranges ordered by start meet that condition |
| Review.UnsortedCanCover | crates/action_log/src/action_log.rs:836-846 | so do some ranges in another order |
| Review.UnsortedRangesMiss | crates/action_log/src/action_log.rs:836-846 | ranges that fail the condition, and an edit they touch and the pass misses |
| Review.CollectRejects | crates/action_log/src/action_log.rs:848-873 | the loop collects one buffer edit for each selected edit |
| Review.RejectTheorem | crates/action_log/src/action_log.rs:816-873 | after a reject the buffer differs from the base by exactly the unselected edits; with all selected it equals the base |
| Review.UndoRestoresFrom | crates/action_log/src/action_log.rs:987-1001 | undoing any list of ordered changes restores the text from any position on |
| Review.UndoRestores | crates/action_log/src/action_log.rs:987-1001 | a reject followed at once by its undo restores the exact buffer text |
| ActionLog.StepOk | crates/action_log/src/action_log.rs:298-313 | every step of the log keeps `Rep` of base, unreviewed edits and snapshot |
| ActionLog.StepUpToDate | crates/action_log/src/action_log.rs:229-234 | no change of the buffer is lost: the newest text queued, under way or seen is the buffer's |
| ActionLog.EveryRunIsOk | crates/action_log/src/action_log.rs:271-316 | both hold in every state of every run, under any interleaving of user and agent edits, keeps, commits, rejects, re-creations and updates that start and finish separately |
| ActionLog.IdleIsBuffer | crates/action_log/src/action_log.rs:2517-2541 | in every run, with nothing queued or under way, the base with every unreviewed edit made is the buffer to the byte |
| ActionLog.KeepOk | crates/action_log/src/action_log.rs:661-696 | a keep of any choice of edits keeps the invariant |
| ActionLog.UpdateKeepsBase | crates/action_log/src/action_log.rs:338-349 | an agent's update, or the echo of one, computes the base it found |
| ActionLog.AgentStepKeepsRestore | crates/action_log/src/action_log.rs:612-626 | no agent step changes what a full reject restores, except deleting a buffer held as created, which drops it |
| ActionLog.AgentRunKeepsRestore | crates/action_log/src/action_log.rs:120-149 | nor does any run of them |
| ActionLog.FullRejectRestores | crates/action_log/src/action_log.rs:723-802 | a full reject restores that text, or removes the file when there was none and nobody else wrote to it |
| LogRuns.UserUpdateRebases | crates/action_log/src/action_log.rs:338-349 | the step that starts a user's update carries it over: from the base under way its text is reached by the moved unreviewed edits and then the conflicting user edits, and by one patch of no more edits than before |
| LogRuns.AgentUpdateKeeps | crates/action_log/src/action_log.rs:338-349 | the step that starts an agent's update takes the base as it is |
| LogRuns.FinishWritesBack | crates/action_log/src/action_log.rs:514-524 | finishing an update makes the base, text and version it started with the log's, with edits that represent their difference |
| LogRuns.UserRunIsReviewed | crates/action_log/src/action_log.rs:318-364 | in every run of user edits and updates from a wholly reviewed buffer, the reviewed text is the buffer whenever the log is idle |
| LogRuns.FirstTouch | crates/action_log/src/action_log.rs:114-203 | what a full reject restores after the agent's first step on an untracked file: the text it had, none if there was no file, and for an edit the text found |
| LogRuns.AgentRunKeepsFile | crates/action_log/src/action_log.rs:114-203 | and after every run of agent steps that begins with a read, a create or a delete |
| LogRuns.AgentRunRestores | crates/action_log/src/action_log.rs:723-802 | from an untracked file on disk, after every such run a full reject gives the buffer the text the file had at the start |
| LogRuns.CreatedFileIsRemoved | crates/action_log/src/action_log.rs:753-790 | after every run of agent steps that begins by creating a file where there was none, a reject of the idle log removes it |
| LogRuns.EditsReachTheBuffer | crates/action_log/src/action_log.rs:582-605 | edits reach the buffer; an agent's edit ends a delete and changes no other status; after a user's edit the content is not only the agent's |
| LogRuns.CreateIsAllUnreviewed | crates/action_log/src/action_log.rs:174-180 | after a create every row of the buffer is in an unreviewed edit, against an empty reviewed text |
| LogRuns.DeleteStep | crates/action_log/src/action_log.rs:607-637 | a delete empties the buffer and queues the two updates; rejecting it brings the text back, keeping it lets go of the buffer |
| LogRuns.KeepStep | crates/action_log/src/action_log.rs:661-701 | in the log, a keep makes exactly the edits in the range in the reviewed text and keeps the others; a created buffer with none left becomes a modified one |
| LogRuns.KeptIsReviewed | crates/action_log/src/action_log.rs:895-921 | after keeping all edits, or a range over the whole buffer, nothing is unreviewed and a full reject restores what was last seen |
| LogRuns.CommitStep | crates/action_log/src/action_log.rs:366-453 | in the log, the base a commit puts under way is the reviewed text with exactly the committed edits made |
| LogRuns.RejectByStatus | crates/action_log/src/action_log.rs:723-878 | in the log, what a reject does in each status, and that a created file somebody else wrote to is left as it is |
| LogRuns.FileChangedStep | crates/action_log/src/action_log.rs:236-269 | what a file deleted or restored on disk does in each status |
| ActionLog.BufferLog.OnUserEdit | crates/action_log/src/action_log.rs:205-234 | takes the user-edit step: a tracked buffer's change is queued as the user's |
| ActionLog.BufferLog.TrackBuffer | crates/action_log/src/action_log.rs:114-203 | tracks the buffer as read, or starts over as created, remembering the text a reject must bring back |
| ActionLog.BufferLog.OnAgentEdit | crates/action_log/src/action_log.rs:582-605 | takes the agent-edit step; a deleted buffer becomes a modified one |
| ActionLog.BufferLog.WillDelete | crates/action_log/src/action_log.rs:607-637 | takes the agent-delete step in each of the three statuses |
| ActionLog.BufferLog.BeginUpdate | crates/action_log/src/action_log.rs:318-352 | starts the oldest queued update with the rebase loop |
| ActionLog.BufferLog.BeginCommit | crates/action_log/src/action_log.rs:366-441 | starts a commit update with the commit loop |
| ActionLog.BufferLog.EndUpdate | crates/action_log/src/action_log.rs:488-529 | finishes the update under way: base, snapshot and the edits of its hunks are written back |
| ActionLog.BufferLog.KeepInRange | crates/action_log/src/action_log.rs:639-704 | takes the keep step with the keep loop |
| ActionLog.BufferLog.KeepAllEdits | crates/action_log/src/action_log.rs:895-921 | takes the keep-all step |
| ActionLog.BufferLog.RejectInRanges | crates/action_log/src/action_log.rs:710-892 | takes the reject step in each status, and returns changes that, applied at once, restore the buffer |
| ActionLog.BufferLog.UndoLastReject | crates/action_log/src/action_log.rs:974-1006 | puts the returned changes back, as the user's in a tracked buffer and as the agent's in one the reject dropped |
| ActionLog.BufferLog.OnFileChanged | crates/action_log/src/action_log.rs:236-269 | takes the step for a file deleted or restored on disk |
| ActionLog.RejectEdits | crates/action_log/src/action_log.rs:814-878 | the reject of a modified buffer: the new text, whether it changed, and an undo that restores it |
| Transcript.ReadCompleteLines | crates/agent_sessions/src/claude.rs:1880-1906 | for every window of at least 1 the pieces end in a newline, concatenate to the longest newline-terminated prefix, and none holds more than a window and one straddling line; the length of that prefix is returned |
| Transcript.ReadTranscriptProgress | crates/agent_sessions/src/claude.rs:1813-1870 | the budget-doubling loop terminates; a pass delivers exactly the bytes between where it started and the cursor it reports, restarts a file shorter than the cursor, and leaves a missing file's cursor alone |
| Transcript.ReadFirstLines | crates/agent_sessions/src/claude.rs:1842-1857 | the cap doubles until a whole line fits or all is read; the complete lines under the final cap are handed over |
| Transcript.PassProgress | crates/agent_sessions/src/claude.rs:1842-1869 | a pass advances exactly when a whole unread line exists, by no more than the larger of its cap and twice that line, and always when it reports more to read |
| Transcript.MoreToRead | crates/agent_sessions/src/claude.rs:1863-1868 | no more to read when everything unread fits the cap or holds no newline, more when a whole line fits the cap and not everything does |
| Transcript.RestartsAtTheTop | crates/agent_sessions/src/claude.rs:1833-1837 | a file shorter than the cursor is read as from its top |
| Transcript.PassReadsTheCap | crates/agent_sessions/src/claude.rs:1842-1857 | a pass delivers every complete line under its cap, doubled exactly as often as it takes for the first unread line to end within it |
| Transcript.WindowIndependent | crates/agent_sessions/src/claude.rs:1880-1906 | the cursor and whether there is more do not depend on the window |
| Transcript.PassKeepsLineStart | crates/agent_sessions/src/claude.rs:1842-1869 | the cursor is at a line start; a pass that is not cut short ends after the last newline |
| Transcript.DrainedIsComplete | crates/agent_sessions/src/claude.rs:1863-1868 | repeating passes while there is more to read on a fixed file terminates exactly after the last newline |
| Transcript.IdentityStays | crates/agent_sessions/src/claude.rs:1916-1930 | once known, the head's identity is the same after any append |
| Transcript.IdentityIs | crates/agent_sessions/src/claude.rs:1916-1930 | the identity is the first line once it is whole, or its first 4096 bytes |
| Transcript.IdentityTells | crates/agent_sessions/src/claude.rs:1916-1930 | two files with whole first lines short enough have one identity exactly when these lines are the same |
| Transcript.StepFollows | crates/agent_sessions/src/claude.rs:1836-1870 | an append or a pass keeps delivery exact, never moves the cursor back and never changes a known identity |
| Transcript.DeliveredExactlyOnce | crates/agent_sessions/src/claude.rs:1836-1870 | over every interleaving of appends and capped passes, what was delivered is exactly the file before the cursor, in order, and the cursor is at a line start |
| Transcript.IdentityNeverChanges | crates/agent_sessions/src/claude.rs:1916-1930 | over every such interleaving an identity once reported is the one reported from then on |
| Heads.HeadCache.OpensOnAClear | crates/agent_sessions/src/claude.rs:2039-2058 | the cache answers as a direct read would, stays within its bound, reads at most one head and none for a current entry, and does not remember an unreadable head |
| Heads.PassedOver | crates/agent_sessions/src/claude.rs:1991-2018 | the reasons for which the search passes over a file, and no others: among them that its session is claimed or the current one |
| Heads.NewestClearedTranscript | crates/agent_sessions/src/claude.rs:1991-2025 | in any directory order the pruned search returns an eligible transcript no eligible one is newer than, or there is none |
| Heads.ChainNeverCycles | crates/agent_sessions/src/claude.rs:2005-2014 | with readable metadata a chain of successors strictly increases in time, so within one state of the directory it never comes back to a path |
| Heads.OneStateIsNoCycle | crates/agent_sessions/src/claude.rs:2005-2014 | a chain comes back to no path if and only if equal paths along it have equal metadata |
| Heads.RewrittenComesBack | crates/agent_sessions/src/claude.rs:2005-2014 | a file written again between two searches can be a successor again |
| Notify.AnswersAreSeparated | crates/agent_notify/src/agent_notify_signals.rs:36-67 | between two "Finished answering" of any trace there is an accepted rising edge, a started or interrupted turn, or an exit |
| Notify.ApprovalsAreSeparated | crates/agent_notify/src/agent_notify_signals.rs:110-124 | between two "Waiting for your approval" the approval was cleared or the session ended |
| Notify.AnswerWasHeld | crates/agent_notify/src/agent_notify_signals.rs:137-155 | each "Finished answering" was armed one full period earlier by an event that may arm, and neither cancelled nor armed again in between |
| Notify.NothingLateAfterExit | crates/agent_notify/src/agent_notify_signals.rs:95-98 | after an exit, until another terminal is armed, no transcript event posts anything or leads to an answer |
| Notify.ExitsAreSeparated | crates/agent_notify/src/agent_notify_watch.rs:180-210 | between two exits a waiter was armed on a terminal with a changed id |
| Notify.TabRemembers | crates/agent_notify/src/agent_notify_signals.rs:36-187 | over every trace, each latch, the terminal, and whether a timer and a waiter are armed, told from what has happened: set by one kind of event and not undone by another since |
| Notify.AnswerIsPosted | crates/agent_notify/src/agent_notify_signals.rs:137-155 | "Finished answering" is posted if and only if a timer fires with notifications on and none was posted since something started afresh |
| Notify.ApprovalIsPosted | crates/agent_notify/src/agent_notify_signals.rs:110-124 | "Waiting for your approval" is posted if and only if one is needed on a tab with a transcript, notifications are on, there is no exit since a terminal was armed, and none is pending |
| Notify.ExitIsPosted | crates/agent_notify/src/agent_notify_signals.rs:164-189 | "Session ended" is posted if and only if the waiter fires with notifications on, and it can fire exactly while one armed by a changed terminal stands |
| Notify.ArmingIs | crates/agent_notify/src/agent_notify_signals.rs:54-67 | when a falling edge or a turn end arms the timer, told from what has happened |
| Notify.StaysArmed | crates/agent_notify/src/agent_notify_signals.rs:99-108 | an armed timer stays until something starts afresh, it fires, or it is armed again |
| Notify.FinishedIsAnnounced | crates/agent_notify/src/agent_notify_signals.rs:99-155 | a finished answer is announced: a timer left alone can fire when its period is over, and then posts if notifications are on |
| Notify.WatchedTab.OnActivity | crates/agent_notify/src/agent_notify_signals.rs:28-68 | takes the activity step: edges of a tab with transcript turns are ignored, a rising edge cancels, a falling one arms |
| Notify.WatchedTab.OnTurn | crates/agent_notify/src/agent_notify_signals.rs:73-126 | takes the step of each transcript turn and posts what it posts |
| Notify.WatchedTab.FireAnswered | crates/agent_notify/src/agent_notify_signals.rs:137-155 | takes the step of a timer that ran out |
| Notify.WatchedTab.FireExit | crates/agent_notify/src/agent_notify_signals.rs:164-189 | takes the exit step: the timer is dropped, the latches reset, the terminal id kept |
| Notify.WatchedTab.OnReread | crates/agent_notify/src/agent_notify_watch.rs:167-210 | takes the reread step: only a changed terminal id replaces the waiter |
| Strings.ParseDecimal | script/github-check-new-issue-for-duplicates.py:284-287 | reading back a number written in decimal gives the number |
| Strings.ParseSigned | script/github-check-new-issue-for-duplicates.py:284-287 | a sign in front of a number is read |
| Strings.TrimStrips | script/github-check-new-issue-for-duplicates.py:276 | trimming takes the white space off both ends and nothing else |
| Sorting.SortSorts | script/github-find-top-duplicated-bugs.py:166-167 | the sort is descending by key |
| Sorting.SortIsStable | script/github-find-top-duplicated-bugs.py:166-167 | and keeps elements with equal keys in their order |
| Magnets.ItemParses | script/github-check-new-issue-for-duplicates.py:283-304 | a printed line, read in an area, records its number and count there |
| Magnets.HeaderParses | script/github-check-new-issue-for-duplicates.py:274-277 | a printed heading of a trimmed name puts the parser in that area |
| Magnets.SectionsRecord | script/github-check-new-issue-for-duplicates.py:272-304 | reading all sections adds each area to an issue's record as often as it is among its areas, with the right count |
| Magnets.BodyParses | script/github-check-new-issue-for-duplicates.py:272-304 | reading the printed body is recording its sections one after the other |
| Magnets.RecordedAs | script/github-check-new-issue-for-duplicates.py:292-304 | every printed issue is recorded with its count and its multiset of areas, the unlabeled one left out |
| Magnets.PrintedAs | script/github-check-new-issue-for-duplicates.py:292-304 | every record is that of an issue that was printed |
| Magnets.RoundTrip | script/github-find-top-duplicated-bugs.py:148-178 | for every introduction of one line that is no heading, and every list of issues with distinct numbers and trimmed one-line area names, parsing the printed body gives each issue once with its count and areas, sorted by count descending, and nothing else |
| Magnets.PrintedInOrder | script/github-find-top-duplicated-bugs.py:166-176 | sections come by descending total of their area, each area that occurs once, and the lines of a section are its issues by descending count |
| Magnets.DistinctInOrder | script/github-find-top-duplicated-bugs.py:154-159 | before sorting, areas stand in the order they first occur |
| Magnets.OneIssue | script/github-find-top-duplicated-bugs.py:161-178 | the lines of a body with one issue, as they are written |
| Magnets.PaddedWidth | script/github-find-top-duplicated-bugs.py:175 | counts are printed two places wide |
| Magnets.NothingBeforeHeadings | script/github-check-new-issue-for-duplicates.py:279-280 | before the first heading nothing is read |
| Magnets.OnlyItemsAreRead | script/github-check-new-issue-for-duplicates.py:274-290 | only a list item that names an issue, in an area, with a count and a number that parse, is recorded; and only a heading changes the area |
| Magnets.LinkParses | script/github-check-new-issue-for-duplicates.py:287 | a closing parenthesis after the number does no harm |
| Magnets.GroupByArea | script/github-find-top-duplicated-bugs.py:154-159 | the nested loops group the issues by area, total their counts, and remember the areas in order of first occurrence |
| Magnets.AppendSection | script/github-find-top-duplicated-bugs.py:169-176 | appends the heading and one line for each issue |
| Magnets.BuildMarkdownBody | script/github-find-top-duplicated-bugs.py:148-178 | the printer computes the body the round trip is about, with an introduction the round trip allows |
| Magnets.ReadLine | script/github-check-new-issue-for-duplicates.py:274-304 | one turn of the parser's loop, on a dictionary that keeps its insertion order |
| Magnets.ParseDuplicateMagnets | script/github-check-new-issue-for-duplicates.py:256-308 | the parser computes the list the round trip is about |

## Left out

- The log keeps one buffer: the map of buffers, linked logs, keep-all and reject-all across buffers, read times, diff statistics and stale buffers.
- Saving, deleting files through the project, language servers, telemetry, weak handles and the scheduling of tasks; a save or a deletion is a change of what is on disk.
- Rope, anchor and differ internals: the edits since a version, the hunks of a diff and the line diff come in as inputs that satisfy `UnitDiff` or `LineDiff`.
- Rows and offsets are unbounded: 32-bit overflow of row numbers past two thousand million is not modelled; that no translated row is negative is proved at every cast.
- Rebase.RebaseTheorem: its moved edits are ordered and in step with the rows but may meet, because the user may delete every row between two of them; the same holds for the composed patch.
- Review.RejectTheorem: the buffer is as last seen when edits are rejected, so anchors stand where they were made; with changes not yet seen, a reject is one more user edit to the log.
- A keep does not survive an update already under way: the update writes back the base it computed when it started, here as in the code, and no claim is made that it does.
- Notify.NothingLateAfterExit: says nothing of falling edges outside the transcript, which arm a timer after an exit too.
- Heads.HeadCache.OpensOnAClear: agrees with a direct read as long as every change of a file changes its length or time, which is the assumption the cache makes; reading and parsing the head is an input.
- Transcript contents are bytes delivered in order: scanning them for tool results and turn marks, the lossy conversion to text, read errors, and hashing the first line (the bytes themselves stand for the hash).
- Transcript.ReadCompleteLines: with a window of 0 it reads nothing, as the code does; the properties of passes are for windows of at least 1.
- The notifier's map of tabs, clicks on notifications, and notification ids and titles.
- Fetching issues and counting their duplicates; a printed issue comes with at least one area, as the first script guarantees, and its link is that of the repository.
- Strings.ParseDecimal: Python's underscores and non-ASCII digits in numbers, and white space beyond ASCII, are not modelled.

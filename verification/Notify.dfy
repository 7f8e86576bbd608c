/** When a watched agent tab posts a notification.

    One tab holds an armed timer, an exit waiter and three latches.  Dropping a timer or a
    waiter is all the cancelling there is.  `Step` says what each event does to a tab and what
    it posts; the class does the same in place.  The results are about whole traces. */
module Notify {
  import opened Prelude

  type TerminalId = nat

  /** How long a turn end from the transcript is held before it is believed, in milliseconds. */
  const TURN_END_CONFIRMATION: nat := 3000

  /** An armed one-shot timer; `serial` tells one arming from the next. */
  datatype Timer = Timer(serial: nat, armedAt: nat, period: nat)

  datatype Turn = Started | Interrupted | Ended | ApprovalNeeded | ApprovalCleared

  datatype Post = Answered | WaitingForApproval | SessionEnded

  datatype Tab = Tab(
    now: nat, armings: nat, terminal: Option<TerminalId>, notified: bool, quiet: Option<Timer>,
    exited: bool, approvalNotified: bool, exit: Option<TerminalId>)

  /** What can happen to a tab.  `transcript` says whether its turns come from its transcript
      and `enabled` whether notifications are on, both at the time of the event. */
  datatype Event =
    | Elapse(time: nat)
    | Activity(answering: bool, transcript: bool, period: nat)
    | TurnEvent(turn: Turn, transcript: bool, enabled: bool)
    | QuietFires(enabled: bool)
    | ExitFires(enabled: bool)
    | Reread(current: Option<TerminalId>)

  function Watched(now: nat): Tab {
    Tab(now, 0, None, false, None, false, false, None)
  }

  /** A timer fires when its period is over, a waiter only when there is one. */
  predicate Enabled(s: Tab, e: Event) {
    match e
    case QuietFires(_) => s.quiet.Some? && s.now >= s.quiet.value.armedAt + s.quiet.value.period
    case ExitFires(_) => s.exit.Some?
    case _ => true
  }

  function Arm(s: Tab, period: nat): Tab {
    s.(quiet := Some(Timer(s.armings, s.now, period)), armings := s.armings + 1)
  }

  predicate NeedsReread(awaited: Option<TerminalId>, current: Option<TerminalId>) {
    awaited != current
  }

  function StepActivity(s: Tab, answering: bool, transcript: bool, period: nat): Tab {
    if transcript then s
    else if answering then s.(quiet := None, notified := false)
    else if s.notified then s
    else Arm(s, period)
  }

  function StepTurn(s: Tab, turn: Turn, transcript: bool, enabled: bool): (Tab, Option<Post>) {
    if !transcript then (s, None)
    else
      match turn
      case Started => (s.(quiet := None, notified := false), None)
      case Interrupted => (s.(quiet := None, notified := false), None)
      case Ended =>
        (if s.exited || s.notified then s else Arm(s, TURN_END_CONFIRMATION), None)
      case ApprovalNeeded =>
        if s.exited || s.approvalNotified || !enabled then (s, None)
        else (s.(approvalNotified := true), Some(WaitingForApproval))
      case ApprovalCleared => (s.(approvalNotified := false), None)
  }

  function StepQuiet(s: Tab, enabled: bool): (Tab, Option<Post>) {
    if s.notified || !enabled then (s.(quiet := None), None)
    else (s.(quiet := None, notified := true), Some(Answered))
  }

  /** The terminal stays on the id of the dead one, so that only a new one arms a waiter. */
  function StepExit(s: Tab, enabled: bool): (Tab, Option<Post>) {
    (s.(exit := None, quiet := None, exited := true, notified := false, approvalNotified := false),
     if enabled then Some(SessionEnded) else None)
  }

  function StepReread(s: Tab, current: Option<TerminalId>): Tab {
    if !NeedsReread(s.terminal, current) then s
    else s.(terminal := current, exit := current, exited := if current.Some? then false else s.exited)
  }

  function Step(s: Tab, e: Event): (r: (Tab, Option<Post>)) {
    match e
    case Elapse(time) => (s.(now := s.now + time), None)
    case Activity(answering, transcript, period) =>
      (StepActivity(s, answering, transcript, period), None)
    case TurnEvent(turn, transcript, enabled) => StepTurn(s, turn, transcript, enabled)
    case QuietFires(enabled) => StepQuiet(s, enabled)
    case ExitFires(enabled) => StepExit(s, enabled)
    case Reread(current) => (StepReread(s, current), None)
  }

  // ----- traces

  /** What happens to a tab from when it is first watched. */
  ghost predicate Trace(tabs: seq<Tab>, events: seq<Event>) {
    && |tabs| == |events| + 1
    && tabs[0] == Watched(tabs[0].now)
    && forall k :: 0 <= k < |events| ==> Follows(tabs, events, k)
  }

  ghost predicate Follows(tabs: seq<Tab>, events: seq<Event>, k: nat)
    requires k < |events| && |tabs| == |events| + 1
  {
    Enabled(tabs[k], events[k]) && tabs[k + 1] == Step(tabs[k], events[k]).0
  }

  ghost predicate Posts(tabs: seq<Tab>, events: seq<Event>, k: nat, post: Post) {
    k < |events| && k < |tabs| && Step(tabs[k], events[k]).1 == Some(post)
  }

  /** An accepted rising edge, a turn that starts or is cut short, or the exit. */
  predicate StartsAfresh(e: Event) {
    || (e.Activity? && !e.transcript && e.answering)
    || (e.TurnEvent? && e.transcript && (e.turn == Started || e.turn == Interrupted))
    || e.ExitFires?
  }

  lemma {:induction false} NotifiedStays(tabs: seq<Tab>, events: seq<Event>, i: nat, j: nat)
    requires Trace(tabs, events) && i <= j < |tabs| && tabs[i].notified
    requires forall k :: i <= k < j ==> !StartsAfresh(events[k])
    ensures tabs[j].notified
    decreases j - i
  {
    if i < j {
      NotifiedStays(tabs, events, i, j - 1);
      assert Follows(tabs, events, j - 1);
    }
  }

  /** Between two "finished answering" something started afresh. */
  lemma AnswersAreSeparated(tabs: seq<Tab>, events: seq<Event>, i: nat, j: nat)
    requires Trace(tabs, events) && i < j
    requires Posts(tabs, events, i, Answered) && Posts(tabs, events, j, Answered)
    ensures exists k :: i < k < j && StartsAfresh(events[k])
  {
    assert Follows(tabs, events, i);
    if forall k :: i < k < j ==> !StartsAfresh(events[k]) {
      NotifiedStays(tabs, events, i + 1, j);
      assert false;
    }
  }

  predicate ClearsApproval(e: Event) {
    (e.TurnEvent? && e.transcript && e.turn == ApprovalCleared) || e.ExitFires?
  }

  lemma {:induction false} ApprovalStays(tabs: seq<Tab>, events: seq<Event>, i: nat, j: nat)
    requires Trace(tabs, events) && i <= j < |tabs| && tabs[i].approvalNotified
    requires forall k :: i <= k < j ==> !ClearsApproval(events[k])
    ensures tabs[j].approvalNotified
    decreases j - i
  {
    if i < j {
      ApprovalStays(tabs, events, i, j - 1);
      assert Follows(tabs, events, j - 1);
    }
  }

  /** Between two "waiting for your approval" the approval was cleared or the session ended. */
  lemma ApprovalsAreSeparated(tabs: seq<Tab>, events: seq<Event>, i: nat, j: nat)
    requires Trace(tabs, events) && i < j
    requires Posts(tabs, events, i, WaitingForApproval) && Posts(tabs, events, j, WaitingForApproval)
    ensures exists k :: i < k < j && ClearsApproval(events[k])
  {
    assert Follows(tabs, events, i);
    if forall k :: i < k < j ==> !ClearsApproval(events[k]) {
      ApprovalStays(tabs, events, i + 1, j);
      assert false;
    }
  }

  /** The event armed the timer: a falling edge on a tab without a transcript, or a turn end on
      one with it, in a tab that has not exited. */
  ghost predicate Arms(tabs: seq<Tab>, events: seq<Event>, i: nat, timer: Timer)
    requires |tabs| == |events| + 1
  {
    i < |events| && tabs[i + 1].quiet == Some(timer) && timer.serial == tabs[i].armings &&
    timer.armedAt == tabs[i].now && !tabs[i].notified &&
    match events[i]
    case Activity(answering, transcript, period) =>
      !transcript && !answering && timer.period == period
    case TurnEvent(turn, transcript, _) =>
      transcript && turn == Ended && !tabs[i].exited && timer.period == TURN_END_CONFIRMATION
    case _ => false
  }

  /** The same timer from just after event `i` up to `j`: not cancelled and not armed again. */
  ghost predicate ArmedThroughout(tabs: seq<Tab>, i: nat, j: nat, timer: Timer) {
    forall k :: i < k <= j && k < |tabs| ==> tabs[k].quiet == Some(timer)
  }

  /** An armed timer was armed by an event and has not been touched since. */
  lemma {:induction false} TimerWasArmed(tabs: seq<Tab>, events: seq<Event>, j: nat) returns (i: nat)
    requires Trace(tabs, events) && j < |tabs| && tabs[j].quiet.Some?
    ensures i < j && Arms(tabs, events, i, tabs[j].quiet.value)
    ensures ArmedThroughout(tabs, i, j, tabs[j].quiet.value)
    decreases j
  {
    if j == 0 {
      assert false;
    }
    assert Follows(tabs, events, j - 1);
    if tabs[j - 1].quiet == tabs[j].quiet && tabs[j - 1].armings == tabs[j].armings {
      i := TimerWasArmed(tabs, events, j - 1);
    } else {
      SerialBelow(tabs, events, j - 1);
      i := j - 1;
    }
  }

  /** Every timer's serial is one already given out, so a new arming is a new timer. */
  lemma {:induction false} SerialBelow(tabs: seq<Tab>, events: seq<Event>, j: nat)
    requires Trace(tabs, events) && j < |tabs|
    ensures tabs[j].quiet.Some? ==> tabs[j].quiet.value.serial < tabs[j].armings
    decreases j
  {
    if j > 0 {
      SerialBelow(tabs, events, j - 1);
      assert Follows(tabs, events, j - 1);
    }
  }

  /** Each "finished answering" was armed one full period earlier, by an event that may arm, and
      was neither cancelled nor armed again in between. */
  lemma AnswerWasHeld(tabs: seq<Tab>, events: seq<Event>, j: nat) returns (i: nat)
    requires Trace(tabs, events) && Posts(tabs, events, j, Answered)
    ensures i < j && tabs[j].quiet.Some?
    ensures var timer := tabs[j].quiet.value;
            && Arms(tabs, events, i, timer) && ArmedThroughout(tabs, i, j, timer)
            && tabs[j].now >= tabs[i].now + timer.period
  {
    assert Follows(tabs, events, j);
    i := TimerWasArmed(tabs, events, j);
  }

  /** Arming a waiter needs a terminal, and one other than the one awaited last. */
  predicate ArmsExit(s: Tab, e: Event) {
    e.Reread? && e.current.Some? && e.current != s.terminal
  }

  lemma {:induction false} ExitedStays(tabs: seq<Tab>, events: seq<Event>, i: nat, j: nat)
    requires Trace(tabs, events) && i <= j < |tabs| && tabs[i].exited
    requires forall k :: i <= k < j ==> !ArmsExit(tabs[k], events[k])
    ensures tabs[j].exited
    decreases j - i
  {
    if i < j {
      ExitedStays(tabs, events, i, j - 1);
      assert Follows(tabs, events, j - 1);
    }
  }

  /** After an exit, and until a different terminal is armed, no transcript event posts anything,
      and a "finished answering" was armed by a falling edge outside the transcript since. */
  lemma NothingLateAfterExit(tabs: seq<Tab>, events: seq<Event>, i: nat, j: nat)
      returns (armed: nat)
    requires Trace(tabs, events) && i < j < |events| && events[i].ExitFires?
    requires forall k :: i < k < j ==> !ArmsExit(tabs[k], events[k])
    ensures events[j].TurnEvent? ==> Step(tabs[j], events[j]).1.None?
    ensures Posts(tabs, events, j, Answered) ==>
              i < armed < j && events[armed].Activity? && !events[armed].transcript
  {
    armed := 0;
    assert Follows(tabs, events, i);
    ExitedStays(tabs, events, i + 1, j);
    if Posts(tabs, events, j, Answered) {
      armed := AnswerWasHeld(tabs, events, j);
      assert armed > i;
      ExitedStays(tabs, events, i + 1, armed);
    }
  }

  lemma {:induction false} NoWaiterStays(tabs: seq<Tab>, events: seq<Event>, i: nat, j: nat)
    requires Trace(tabs, events) && i <= j < |tabs| && tabs[i].exit.None?
    requires forall k :: i <= k < j ==> !ArmsExit(tabs[k], events[k])
    ensures tabs[j].exit.None?
    decreases j - i
  {
    if i < j {
      NoWaiterStays(tabs, events, i, j - 1);
      assert Follows(tabs, events, j - 1);
    }
  }

  /** Each arming of the waiter yields at most one "session ended": between two of them a
      terminal with another id was armed. */
  lemma ExitsAreSeparated(tabs: seq<Tab>, events: seq<Event>, i: nat, j: nat)
    requires Trace(tabs, events) && i < j < |events| && events[i].ExitFires? && events[j].ExitFires?
    ensures exists k :: i < k < j && ArmsExit(tabs[k], events[k])
  {
    assert Follows(tabs, events, i);
    assert Follows(tabs, events, j);
    if forall k :: i < k < j ==> !ArmsExit(tabs[k], events[k]) {
      NoWaiterStays(tabs, events, i + 1, j);
      assert false;
    }
  }

  // ----- what a tab remembers

  /** One of `on` has happened before `j`, and none of `off` since. */
  ghost predicate Since(on: nat -> bool, off: nat -> bool, j: nat) {
    exists i :: 0 <= i < j && on(i) && NoneBetween(off, i, j)
  }

  ghost predicate NoneBetween(off: nat -> bool, i: nat, j: nat) {
    forall k :: i < k < j ==> !off(k)
  }

  lemma SinceStep(on: nat -> bool, off: nat -> bool, j: nat)
    ensures !Since(on, off, 0)
    ensures Since(on, off, j + 1) <==> on(j) || (Since(on, off, j) && !off(j))
  {
    if on(j) {
      assert NoneBetween(off, j, j + 1);
    } else if Since(on, off, j) && !off(j) {
      var i :| 0 <= i < j && on(i) && NoneBetween(off, i, j);
      assert NoneBetween(off, i, j + 1);
    }
    if Since(on, off, j + 1) && !on(j) {
      var i :| 0 <= i < j + 1 && on(i) && NoneBetween(off, i, j + 1);
      assert NoneBetween(off, i, j) && i < j;
    }
  }

  ghost function Fresh(events: seq<Event>): nat -> bool {
    (k: nat) => k < |events| && StartsAfresh(events[k])
  }

  ghost function Cleared(events: seq<Event>): nat -> bool {
    (k: nat) => k < |events| && ClearsApproval(events[k])
  }

  ghost function Exits(events: seq<Event>): nat -> bool {
    (k: nat) => k < |events| && events[k].ExitFires?
  }

  ghost function Posted(tabs: seq<Tab>, events: seq<Event>, post: Post): nat -> bool {
    (k: nat) => Posts(tabs, events, k, post)
  }

  /** An event that arms the exit waiter. */
  ghost function Awaits(tabs: seq<Tab>, events: seq<Event>): nat -> bool {
    (k: nat) => k < |events| && k < |tabs| && ArmsExit(tabs[k], events[k])
  }

  /** An event that ends the wait: the exit, or another terminal or none. */
  ghost function StopsWaiting(tabs: seq<Tab>, events: seq<Event>): nat -> bool {
    (k: nat) => k < |events| && k < |tabs|
         && (events[k].ExitFires? || (events[k].Reread? && events[k].current != tabs[k].terminal))
  }

  /** An event that arms the timer: an accepted falling edge, or a turn end in a tab with a
      transcript that has not exited, when no answer has been announced. */
  predicate ArmsQuiet(s: Tab, e: Event) {
    !s.notified &&
    match e
    case Activity(answering, transcript, _) => !transcript && !answering
    case TurnEvent(turn, transcript, _) => transcript && turn == Ended && !s.exited
    case _ => false
  }

  function ArmedPeriod(e: Event): nat {
    if e.Activity? then e.period else TURN_END_CONFIRMATION
  }

  ghost function Arming(tabs: seq<Tab>, events: seq<Event>): nat -> bool {
    (k: nat) => k < |events| && k < |tabs| && ArmsQuiet(tabs[k], events[k])
  }

  ghost function Disarming(events: seq<Event>): nat -> bool {
    (k: nat) => k < |events| && (StartsAfresh(events[k]) || events[k].QuietFires?)
  }

  /** The terminal last read. */
  function LastRead(events: seq<Event>, j: nat): Option<TerminalId>
    requires j <= |events|
  {
    if j == 0 then None
    else if events[j - 1].Reread? then events[j - 1].current
    else LastRead(events, j - 1)
  }

  /** Everything a tab remembers, told from what has happened to it: the three latches, the
      terminal it is on, and whether a waiter and a timer are armed. */
  lemma {:induction false} TabRemembers(tabs: seq<Tab>, events: seq<Event>, j: nat)
    requires Trace(tabs, events) && j < |tabs|
    ensures tabs[j].notified <==> Since(Posted(tabs, events, Answered), Fresh(events), j)
    ensures tabs[j].approvalNotified <==>
            Since(Posted(tabs, events, WaitingForApproval), Cleared(events), j)
    ensures tabs[j].exited <==> Since(Exits(events), Awaits(tabs, events), j)
    ensures tabs[j].terminal == LastRead(events, j)
    ensures tabs[j].exit.Some? <==> Since(Awaits(tabs, events), StopsWaiting(tabs, events), j)
    ensures tabs[j].exit.Some? ==> tabs[j].exit == tabs[j].terminal
    ensures tabs[j].quiet.Some? <==> Since(Arming(tabs, events), Disarming(events), j)
    decreases j
  {
    hide *;
    if j == 0 {
      NothingYet(tabs, events);
    } else {
      var i := j - 1;
      TabRemembers(tabs, events, i);
      TraceStep(tabs, events, i);
      LatchesStep(tabs, events, i);
      WaiterStep(tabs, events, i);
      TerminalStep(tabs, events, i);
      TimerStep(tabs, events, i);
      SinceStep(Posted(tabs, events, Answered), Fresh(events), i);
      SinceStep(Posted(tabs, events, WaitingForApproval), Cleared(events), i);
      SinceStep(Exits(events), Awaits(tabs, events), i);
      SinceStep(Awaits(tabs, events), StopsWaiting(tabs, events), i);
      SinceStep(Arming(tabs, events), Disarming(events), i);
    }
  }

  lemma TraceStep(tabs: seq<Tab>, events: seq<Event>, i: nat)
    requires Trace(tabs, events) && i + 1 < |tabs|
    ensures i < |events| && |tabs| == |events| + 1 && Follows(tabs, events, i)
  {
    hide Follows;
  }

  lemma LatchesStep(tabs: seq<Tab>, events: seq<Event>, i: nat)
    requires i < |events| && |tabs| == |events| + 1 && Follows(tabs, events, i)
    ensures tabs[i + 1].notified <==>
            Posted(tabs, events, Answered)(i) || (tabs[i].notified && !Fresh(events)(i))
    ensures tabs[i + 1].approvalNotified <==>
            || Posted(tabs, events, WaitingForApproval)(i)
            || (tabs[i].approvalNotified && !Cleared(events)(i))
    ensures tabs[i + 1].exited <==> Exits(events)(i) || (tabs[i].exited && !Awaits(tabs, events)(i))
  {
  }

  lemma WaiterStep(tabs: seq<Tab>, events: seq<Event>, i: nat)
    requires i < |events| && |tabs| == |events| + 1 && Follows(tabs, events, i)
    ensures tabs[i + 1].exit.Some? <==>
            Awaits(tabs, events)(i) || (tabs[i].exit.Some? && !StopsWaiting(tabs, events)(i))
  {
    hide StepActivity, StepTurn, StepQuiet;
    WaiterUntouched(tabs[i], events[i]);
  }

  lemma WaiterUntouched(s: Tab, e: Event)
    ensures !e.ExitFires? && !e.Reread? ==>
              Step(s, e).0.exit == s.exit && Step(s, e).0.terminal == s.terminal
  {
  }

  lemma TerminalStep(tabs: seq<Tab>, events: seq<Event>, i: nat)
    requires i < |events| && |tabs| == |events| + 1 && Follows(tabs, events, i)
    requires tabs[i].terminal == LastRead(events, i)
    requires tabs[i].exit.Some? ==> tabs[i].exit == tabs[i].terminal
    ensures tabs[i + 1].terminal == LastRead(events, i + 1)
    ensures tabs[i + 1].exit.Some? ==> tabs[i + 1].exit == tabs[i + 1].terminal
  {
    hide StepActivity, StepTurn, StepQuiet;
    WaiterUntouched(tabs[i], events[i]);
  }

  lemma TimerStep(tabs: seq<Tab>, events: seq<Event>, i: nat)
    requires i < |events| && |tabs| == |events| + 1 && Follows(tabs, events, i)
    ensures tabs[i + 1].quiet.Some? <==>
            Arming(tabs, events)(i) || (tabs[i].quiet.Some? && !Disarming(events)(i))
  {
  }

  lemma NothingYet(tabs: seq<Tab>, events: seq<Event>)
    requires Trace(tabs, events)
    ensures forall on: nat -> bool, off: nat -> bool :: !Since(on, off, 0)
    ensures tabs[0] == Tab(tabs[0].now, 0, None, false, None, false, false, None)
    ensures LastRead(events, 0) == None
  {
  }

  // ----- what is posted, exactly

  /** "Finished answering" is posted exactly when a timer runs out with notifications on and none
      has been posted since something started afresh. */
  lemma AnswerIsPosted(tabs: seq<Tab>, events: seq<Event>, j: nat)
    requires Trace(tabs, events) && j < |events|
    ensures Posts(tabs, events, j, Answered) <==>
            events[j] == QuietFires(true) && !Since(Posted(tabs, events, Answered), Fresh(events), j)
  {
    TabRemembers(tabs, events, j);
    hide Since, Trace;
  }

  /** "Waiting for your approval" is posted exactly when one is needed on a tab with a transcript,
      with notifications on, no exit since a terminal was armed, and none posted since the last was
      cleared. */
  lemma ApprovalIsPosted(tabs: seq<Tab>, events: seq<Event>, j: nat)
    requires Trace(tabs, events) && j < |events|
    ensures Posts(tabs, events, j, WaitingForApproval) <==>
            && events[j] == TurnEvent(ApprovalNeeded, true, true)
            && !Since(Exits(events), Awaits(tabs, events), j)
            && !Since(Posted(tabs, events, WaitingForApproval), Cleared(events), j)
  {
    TabRemembers(tabs, events, j);
    hide Since, Trace;
  }

  /** "Session ended" is posted exactly when an armed waiter fires with notifications on; one is
      armed by every change to a terminal, until it fires or the terminal changes again. */
  lemma ExitIsPosted(tabs: seq<Tab>, events: seq<Event>, j: nat)
    requires Trace(tabs, events) && j < |events|
    ensures Posts(tabs, events, j, SessionEnded) <==> events[j] == ExitFires(true)
    ensures Enabled(tabs[j], ExitFires(true)) <==>
            Since(Awaits(tabs, events), StopsWaiting(tabs, events), j)
  {
    TabRemembers(tabs, events, j);
    hide Since, Trace;
  }

  /** An armed timer stays armed until something starts afresh, it fires, or it is armed again. */
  lemma {:induction false} StaysArmed(tabs: seq<Tab>, events: seq<Event>, i: nat, j: nat)
    requires Trace(tabs, events) && i < j < |tabs| && ArmsQuiet(tabs[i], events[i])
    requires forall k :: i < k < j ==>
               !StartsAfresh(events[k]) && !events[k].QuietFires? && !ArmsQuiet(tabs[k], events[k])
    ensures tabs[j].quiet == Some(Timer(tabs[i].armings, tabs[i].now, ArmedPeriod(events[i])))
    ensures !tabs[j].notified
    decreases j - i
  {
    assert Follows(tabs, events, j - 1);
    if j > i + 1 {
      StaysArmed(tabs, events, i, j - 1);
    }
    hide Trace;
  }

  /** A finished answer is announced: once a falling edge or a turn end has armed the timer and
      nothing starts afresh, arms it again or fires it, it can fire when its period is over, and then
      "Finished answering" is posted if notifications are on. */
  lemma FinishedIsAnnounced(tabs: seq<Tab>, events: seq<Event>, i: nat, j: nat)
    requires Trace(tabs, events) && i < j < |tabs| && ArmsQuiet(tabs[i], events[i])
    requires forall k :: i < k < j ==>
               !StartsAfresh(events[k]) && !events[k].QuietFires? && !ArmsQuiet(tabs[k], events[k])
    requires tabs[j].now >= tabs[i].now + ArmedPeriod(events[i])
    ensures Enabled(tabs[j], QuietFires(true))
    ensures Step(tabs[j], QuietFires(true)).1 == Some(Answered)
    ensures j < |events| && events[j] == QuietFires(true) ==> Posts(tabs, events, j, Answered)
  {
    StaysArmed(tabs, events, i, j);
  }

  /** When an event arms the timer, told from what has happened: a falling edge without a transcript
      or a turn end with one, no answer announced since something started afresh, and for the turn
      end no exit since a terminal was armed. */
  lemma ArmingIs(tabs: seq<Tab>, events: seq<Event>, i: nat)
    requires Trace(tabs, events) && i < |events|
    ensures ArmsQuiet(tabs[i], events[i]) <==>
            && !Since(Posted(tabs, events, Answered), Fresh(events), i)
            && ((events[i].Activity? && !events[i].transcript && !events[i].answering)
                || (&& events[i].TurnEvent? && events[i].transcript && events[i].turn == Ended
                    && !Since(Exits(events), Awaits(tabs, events), i)))
  {
    TabRemembers(tabs, events, i);
    hide Since, Trace;
  }

  // ----- the tab in place

  class WatchedTab {
    var now: nat
    var armings: nat
    var terminal: Option<TerminalId>
    var notified: bool
    var quiet: Option<Timer>
    var exited: bool
    var approvalNotified: bool
    var exit: Option<TerminalId>
    /** What has been posted, oldest first. */
    var posted: seq<Post>

    ghost function State(): Tab
      reads this
    {
      Tab(now, armings, terminal, notified, quiet, exited, approvalNotified, exit)
    }

    /** The tab took the step and posted what the step posts. */
    twostate predicate Took(e: Event)
      reads this
    {
      var r := Step(old(State()), e);
      State() == r.0 && posted == old(posted) + if r.1.Some? then [r.1.value] else []
    }

    constructor (now: nat)
      ensures State() == Watched(now) && posted == []
    {
      this.now, armings, terminal, notified, quiet := now, 0, None, false, None;
      exited, approvalNotified, exit, posted := false, false, None, [];
    }

    method Wait(time: nat)
      modifies this`now
      ensures Took(Elapse(time))
    {
      now := now + time;
    }

    method ArmQuiet(period: nat)
      modifies this`quiet, this`armings
      ensures quiet == Some(Timer(old(armings), now, period)) && armings == old(armings) + 1
    {
      quiet := Some(Timer(armings, now, period));
      armings := armings + 1;
    }

    method OnActivity(answering: bool, transcriptTurns: bool, period: nat)
      modifies this
      ensures Took(Activity(answering, transcriptTurns, period))
    {
      if transcriptTurns {
        return;
      }
      if answering {
        quiet := None;
        notified := false;
        return;
      }
      if notified {
        return;
      }
      ArmQuiet(period);
    }

    method OnTurn(turn: Turn, transcriptTurns: bool, enabled: bool)
      modifies this
      ensures Took(TurnEvent(turn, transcriptTurns, enabled))
    {
      if !transcriptTurns {
        return;
      }
      match turn {
        case Started =>
          quiet, notified := None, false;
        case Interrupted =>
          quiet, notified := None, false;
        case Ended =>
          if exited || notified {
            return;
          }
          ArmQuiet(TURN_END_CONFIRMATION);
        case ApprovalNeeded =>
          if exited || approvalNotified || !enabled {
            return;
          }
          posted := posted + [WaitingForApproval];
          approvalNotified := true;
        case ApprovalCleared =>
          approvalNotified := false;
      }
    }

    method FireAnswered(enabled: bool)
      requires Enabled(State(), QuietFires(enabled))
      modifies this
      ensures Took(QuietFires(enabled))
    {
      quiet := None;
      if notified || !enabled {
        return;
      }
      posted := posted + [Answered];
      notified := true;
    }

    method FireExit(enabled: bool)
      requires Enabled(State(), ExitFires(enabled))
      modifies this
      ensures Took(ExitFires(enabled))
    {
      exit, quiet, exited, notified, approvalNotified := None, None, true, false, false;
      if !enabled {
        return;
      }
      posted := posted + [SessionEnded];
    }

    method OnReread(current: Option<TerminalId>)
      modifies this
      ensures Took(Reread(current))
    {
      if !NeedsReread(terminal, current) {
        return;
      }
      exit := None;
      terminal := current;
      if current.Some? {
        exited := false;
        exit := current;
      }
    }
  }
}

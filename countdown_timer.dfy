/**
 * The study timer of the task page. Its state is the four script variables
 * `timerInterval`, `timerEndTime`, `currentTimerTaskId` and
 * `timerDurationMinutes`, together with what the timer's functions write
 * to the page (the `MM:SS` display, the button's `onclick` handler, the
 * disabled flag of the two inputs) and what they hand to the host (the
 * intervals it keeps firing, the time entries posted to the server).
 *
 * `TimerState` is that state as a value and the `...Step` functions say what
 * each operation makes of it; the class `Timer` holds the same state in
 * fields and its methods change them in place, each proved to agree with its
 * step function. Clock readings (`Date.now()`) are the `now` parameters, in
 * milliseconds.
 */
module CountdownTimer {
  import opened Wrappers
  import opened Formatters

  /** The body of the time-entry POST that `timerCompleted` sends. */
  datatype TimeEntry = TimeEntry(taskId: Option<string>, durationMinutes: int)

  /** The two functions the script assigns to the button's `onclick`. */
  datatype Handler = StartHandler | StopHandler

  /** How `startTimer` ends: a new run, or one of its two alerts. */
  datatype StartOutcome = Started | SelectTaskFirst | EnterDuration

  datatype TimerState = TimerState(
    interval: Option<nat>,        // timerInterval: the handle of the running interval, or null
    endTime: Option<int>,         // timerEndTime: when the run ends, or null
    taskId: Option<string>,       // currentTimerTaskId
    durationMinutes: int,         // timerDurationMinutes
    display: string,              // the text of #timerTime
    onclick: Option<Handler>,     // #timerButton.onclick; never assigned before the first start
    inputsDisabled: bool,         // #taskSelector and #timerDuration disabled
    scheduled: set<nat>,          // interval handles the host keeps firing
    nextHandle: nat,              // the handle the host's next setInterval returns
    posted: seq<TimeEntry>)       // time entries sent to the server, oldest first

  /** The script just loaded: the four declarations, nothing scheduled, nothing posted. */
  function Initial(): (r: TimerState)
    ensures Valid(r) && Idle(r) && r.scheduled == {} && r.posted == []
  {
    TimerState(None, None, None, 0, "00:00", None, false, {}, 1, [])
  }

  predicate Idle(s: TimerState) {
    && s.interval.None? && s.endTime.None? && s.taskId.None? && s.durationMinutes == 0
    && !s.inputsDisabled && s.onclick != Some(StopHandler)
  }

  predicate Running(s: TimerState) {
    && s.interval.Some? && s.endTime.Some? && s.taskId.Some? && s.taskId.value != ""
    && s.durationMinutes >= 1 && s.inputsDisabled && s.onclick == Some(StopHandler)
  }

  predicate ProperEntry(e: TimeEntry) {
    e.taskId.Some? && e.taskId.value != "" && e.durationMinutes >= 1
  }

  /**
   * The timer's invariant: idle or running, never a mix; the host fires
   * exactly the interval the timer holds (none while idle), a handle it has
   * already given out; every posted entry names a task and a positive
   * duration.
   */
  predicate Valid(s: TimerState) {
    && (Idle(s) || Running(s))
    && s.scheduled == (if s.interval.Some? then {s.interval.value} else {})
    && s.nextHandle >= 1
    && (s.interval.Some? ==> 1 <= s.interval.value < s.nextHandle)
    && forall i :: 0 <= i < |s.posted| ==> ProperEntry(s.posted[i])
  }

  /**
   * `Math.max(0, Math.floor((timerEndTime - now) / 1000))`: whole seconds
   * left, never negative. A `null` end time counts as 0, as JavaScript's
   * `null - now` does, so it leaves no time at all.
   */
  function Remaining(endTime: Option<int>, now: nat): (r: nat)
    ensures endTime.None? ==> r == 0
    ensures endTime.Some? ==> (r == 0 <==> endTime.value - now < 1000)
    ensures endTime.Some? && r > 0 ==> r * 1000 <= endTime.value - now < (r + 1) * 1000
  {
    var end := if endTime.Some? then endTime.value else 0;
    var seconds := (end - now) / 1000;
    if seconds > 0 then seconds else 0
  }

  /** The countdown never goes up as the clock advances. */
  lemma RemainingCountsDown(endTime: Option<int>, earlier: nat, later: nat)
    requires earlier <= later
    ensures Remaining(endTime, later) <= Remaining(endTime, earlier)
  {
    if endTime.Some? && Remaining(endTime, later) > 0 {
      var r := Remaining(endTime, later);
      assert r * 1000 <= endTime.value - earlier;
    }
  }

  /** Right after a start, the whole duration is left. */
  lemma RemainingAtStart(now: nat, minutes: int)
    requires minutes >= 1
    ensures Remaining(Some(now + minutes * 60 * 1000), now) == minutes * 60
  {
    assert now + minutes * 60 * 1000 - now == (minutes * 60) * 1000;
  }

  /** `resetTimerUI()`: display and button back to "start", inputs enabled, the run forgotten. */
  function ResetStep(s: TimerState): (r: TimerState)
    ensures r.taskId.None? && r.durationMinutes == 0 && r.endTime.None?
    ensures r.display == "00:00" && r.onclick == Some(StartHandler) && !r.inputsDisabled
    ensures r.interval == s.interval && r.scheduled == s.scheduled && r.nextHandle == s.nextHandle && r.posted == s.posted
    ensures r.interval.None? ==> Idle(r)
  {
    s.(display := "00:00", onclick := Some(StartHandler), inputsDisabled := false,
       taskId := None, durationMinutes := 0, endTime := None)
  }

  /** `clearInterval(timerInterval); timerInterval = null` when it is set. */
  function ClearStep(s: TimerState): (r: TimerState)
    ensures r.interval.None?
    ensures r.scheduled == if s.interval.Some? then s.scheduled - {s.interval.value} else s.scheduled
    ensures r.(scheduled := s.scheduled, interval := s.interval) == s
  {
    if s.interval.Some? then s.(scheduled := s.scheduled - {s.interval.value}, interval := None) else s
  }

  /**
   * `timerCompleted()` up to its first `await`: the held interval is cleared
   * and the time entry with the run's task and duration is posted.
   */
  function CompletionBeforeAwait(s: TimerState): (r: TimerState)
    ensures r.interval.None? && r.posted == s.posted + [TimeEntry(s.taskId, s.durationMinutes)]
    ensures r.scheduled == if s.interval.Some? then s.scheduled - {s.interval.value} else s.scheduled
    ensures r.(posted := s.posted, scheduled := s.scheduled, interval := s.interval) == s
  {
    var cleared := ClearStep(s);
    cleared.(posted := cleared.posted + [TimeEntry(cleared.taskId, cleared.durationMinutes)])
  }

  /**
   * `timerCompleted()` run to its end without anything happening at its
   * awaits: the held interval is cleared, one time entry with the run's task
   * and duration is posted, and the timer is reset.
   */
  function CompleteStep(s: TimerState): (r: TimerState)
    ensures Idle(r)
    ensures r.posted == s.posted + [TimeEntry(s.taskId, s.durationMinutes)]
    ensures r.scheduled == if s.interval.Some? then s.scheduled - {s.interval.value} else s.scheduled
  {
    ResetStep(CompletionBeforeAwait(s))
  }

  /** `stopTimer()`: the held interval is cleared and the timer reset; nothing is posted. */
  function StopStep(s: TimerState): (r: TimerState)
    ensures Idle(r) && r.posted == s.posted
    ensures r.scheduled == if s.interval.Some? then s.scheduled - {s.interval.value} else s.scheduled
  {
    ResetStep(ClearStep(s))
  }

  /** `updateTimer()` at `now`: the display shows what is left; at zero the run completes. */
  function UpdateStep(s: TimerState, now: nat): (r: TimerState)
    ensures r.posted == s.posted + (if Remaining(s.endTime, now) == 0 then [TimeEntry(s.taskId, s.durationMinutes)] else [])
    ensures Remaining(s.endTime, now) > 0 ==> r == s.(display := FormatTime(Remaining(s.endTime, now)))
  {
    var remaining := Remaining(s.endTime, now);
    var shown := s.(display := FormatTime(remaining));
    if remaining == 0 then CompleteStep(shown) else shown
  }

  /**
   * `startTimer()` with the selector's value and the parsed duration
   * (`None` for NaN): an empty selection or a duration that is not a number
   * of at least one minute raises an alert and changes nothing; otherwise
   * the run is recorded, a new interval is scheduled and the display updated.
   * It does not look at whether a run is already going.
   */
  function StartStep(s: TimerState, now: nat, selection: string, duration: Option<int>): (r: (TimerState, StartOutcome))
    ensures r.1 == SelectTaskFirst <==> selection == ""
    ensures r.1 == EnterDuration <==> selection != "" && (duration.None? || duration.value < 1)
    ensures r.1 != Started ==> r.0 == s
    ensures r.1 == Started ==> Running(r.0) && r.0.interval == Some(s.nextHandle)
    ensures r.0.posted == s.posted
  {
    if selection == "" then (s, SelectTaskFirst)
    else if duration.None? || duration.value < 1 then (s, EnterDuration)
    else
      RemainingAtStart(now, duration.value);
      (UpdateStep(Begin(s, now, selection, duration.value), now), Started)
  }

  /** The assignments of a successful `startTimer`, before its first `updateTimer()`. */
  function Begin(s: TimerState, now: nat, selection: string, minutes: int): (r: TimerState)
    requires selection != "" && minutes >= 1
    ensures Running(r)
    ensures Valid(s) ==> r.interval.value !in s.scheduled
    ensures Valid(s) && Idle(s) ==> Valid(r)
    ensures Remaining(r.endTime, now) == minutes * 60
  {
    RemainingAtStart(now, minutes);
    s.(taskId := Some(selection), durationMinutes := minutes,
       endTime := Some(now + minutes * 60 * 1000),
       onclick := Some(StopHandler), inputsDisabled := true,
       interval := Some(s.nextHandle), scheduled := s.scheduled + {s.nextHandle},
       nextHandle := s.nextHandle + 1)
  }

  /**
   * What a successful start leaves: the selected task, the duration, the end
   * `now + duration * 60 * 1000`, one more scheduled interval held by the
   * timer, the button set to stop, the inputs disabled and nothing posted.
   */
  lemma StartRecordsRun(s: TimerState, now: nat, selection: string, duration: Option<int>)
    requires StartStep(s, now, selection, duration).1 == Started
    ensures StartStep(s, now, selection, duration).0
         == Begin(s, now, selection, duration.value).(display := FormatTime(duration.value * 60))
    ensures var r := StartStep(s, now, selection, duration).0;
      && r.taskId == Some(selection) && r.durationMinutes == duration.value
      && r.endTime == Some(now + duration.value * 60 * 1000)
      && r.interval == Some(s.nextHandle) && r.scheduled == s.scheduled + {s.nextHandle}
      && r.nextHandle == s.nextHandle + 1 && r.posted == s.posted
      && r.onclick == Some(StopHandler) && r.inputsDisabled
  {
    RemainingAtStart(now, duration.value);
  }

  /** A start from an idle, valid timer yields a valid timer, running exactly when the inputs passed. */
  lemma StartFromIdleKeepsValid(s: TimerState, now: nat, selection: string, duration: Option<int>)
    requires Valid(s) && Idle(s)
    ensures var (r, outcome) := StartStep(s, now, selection, duration);
      Valid(r) && (Running(r) <==> outcome == Started)
  {
    if StartStep(s, now, selection, duration).1 == Started {
      StartRecordsRun(s, now, selection, duration);
    }
  }

  /** Stopping an idle timer touches none of the four timer variables, the intervals or the entries. */
  lemma StopWhenIdle(s: TimerState)
    requires Valid(s) && Idle(s)
    ensures var r := StopStep(s);
      && r.interval == s.interval && r.endTime == s.endTime && r.taskId == s.taskId
      && r.durationMinutes == s.durationMinutes && r.scheduled == s.scheduled && r.posted == s.posted
    ensures s.display == "00:00" && s.onclick == Some(StartHandler) ==> StopStep(s) == s
  {
  }

  /** What drives the timer: a click on its button, or the host firing an interval. */
  datatype Event =
    | Click(now: nat, selection: string, duration: Option<int>)
    | Tick(handle: nat, now: nat)

  /** The host fires only intervals that are still scheduled; each firing runs `updateTimer`. */
  function TickStep(s: TimerState, handle: nat, now: nat): (r: TimerState)
    ensures handle !in s.scheduled ==> r == s
    ensures s.posted <= r.posted && |r.posted| <= |s.posted| + 1
    ensures r.nextHandle == s.nextHandle
  {
    if handle in s.scheduled then UpdateStep(s, now) else s
  }

  /**
   * A click as the page wires it: the listener `startTimer` added once at
   * load runs first; then, if `onclick` had been assigned before the click,
   * the function `onclick` holds by then runs as well.
   */
  function ClickStepAsWritten(s: TimerState, now: nat, selection: string, duration: Option<int>): (r: TimerState)
    ensures r.posted == s.posted
    ensures s.onclick.Some? ==> !Running(r)
  {
    var afterListener := StartStep(s, now, selection, duration).0;
    if s.onclick.None? then afterListener
    else match afterListener.onclick
      case Some(StartHandler) => StartStep(afterListener, now, selection, duration).0
      case Some(StopHandler) => StopStep(afterListener)
      case None => afterListener
  }

  /** A click as the page intends it: a running timer stops, an idle one starts. */
  function ClickStep(s: TimerState, now: nat, selection: string, duration: Option<int>): (r: TimerState)
    ensures r.posted == s.posted
    ensures Running(s) ==> Idle(r) && r.scheduled == s.scheduled - {s.interval.value}
    ensures Idle(s) ==> (Running(r) <==> StartStep(s, now, selection, duration).1 == Started)
  {
    if s.interval.Some? then StopStep(s) else StartStep(s, now, selection, duration).0
  }

  function Step(s: TimerState, e: Event): TimerState {
    match e
    case Click(now, selection, duration) => ClickStep(s, now, selection, duration)
    case Tick(handle, now) => TickStep(s, handle, now)
  }

  function StepAsWritten(s: TimerState, e: Event): TimerState {
    match e
    case Click(now, selection, duration) => ClickStepAsWritten(s, now, selection, duration)
    case Tick(handle, now) => TickStep(s, handle, now)
  }

  function Run(s: TimerState, events: seq<Event>): TimerState
    decreases |events|
  {
    if events == [] then s else Run(Step(s, events[0]), events[1..])
  }

  function RunAsWritten(s: TimerState, events: seq<Event>): TimerState
    decreases |events|
  {
    if events == [] then s else RunAsWritten(StepAsWritten(s, events[0]), events[1..])
  }

  /** The number of events in a run of `events` that take the timer from idle to running. */
  function Starts(s: TimerState, events: seq<Event>): nat
    decreases |events|
  {
    if events == [] then 0
    else (if Idle(s) && Running(Step(s, events[0])) then 1 else 0) + Starts(Step(s, events[0]), events[1..])
  }

  /** One when a run is going and may still post its entry. */
  function RunInProgress(s: TimerState): nat {
    if Running(s) then 1 else 0
  }

  /**
   * One event on a valid timer: the timer stays valid, entries are only
   * appended, and an entry is posted only by a running timer, which it
   * leaves idle; only a start can make a new entry possible.
   */
  lemma StepKeepsValid(s: TimerState, e: Event)
    requires Valid(s)
    ensures var r := Step(s, e);
      && Valid(r)
      && s.posted <= r.posted
      && |r.posted| + RunInProgress(r) <= |s.posted| + RunInProgress(s) + (if Idle(s) && Running(r) then 1 else 0)
  {
    match e
    case Click(now, selection, duration) =>
      if s.interval.None? {
        StartFromIdleKeepsValid(s, now, selection, duration);
      }
    case Tick(handle, now) =>
      if handle in s.scheduled {
        assert Running(s);
      }
  }

  /**
   * Over any sequence of clicks and firings, a valid timer stays valid and
   * posts at most one time entry per run: the entries posted never exceed
   * the runs started, plus one for a run already going.
   */
  lemma {:induction false} AtMostOneEntryPerRun(s: TimerState, events: seq<Event>)
    requires Valid(s)
    ensures var r := Run(s, events);
      && Valid(r)
      && s.posted <= r.posted
      && |r.posted| + RunInProgress(r) <= |s.posted| + RunInProgress(s) + Starts(s, events)
    decreases |events|
  {
    if events != [] {
      StepKeepsValid(s, events[0]);
      AtMostOneEntryPerRun(Step(s, events[0]), events[1..]);
    }
  }

  /**
   * A firing posts exactly when no time is left, and then it posts the
   * task and duration the run was started with and leaves nothing scheduled,
   * so no firing of this run can follow.
   */
  lemma TickCompletesAtZero(s: TimerState, handle: nat, now: nat)
    requires Valid(s) && handle in s.scheduled
    ensures var r := TickStep(s, handle, now);
      && (|r.posted| == |s.posted| + 1 <==> Remaining(s.endTime, now) == 0)
      && (Remaining(s.endTime, now) == 0 ==>
            && r.posted == s.posted + [TimeEntry(s.taskId, s.durationMinutes)] && Idle(r) && r.scheduled == {}
            && r.display == "00:00" && r.onclick == Some(StartHandler) && r.nextHandle == s.nextHandle)
      && (Remaining(s.endTime, now) > 0 ==> r.posted == s.posted && Running(r))
  {
    assert Running(s);
  }

  /**
   * As written, a click on a running timer's button (its `onclick` is
   * `stopTimer`) with inputs that pass validation first restarts the run on
   * a new interval, overwriting the held handle, and then stops it, clearing
   * only the new interval. The interval the timer held stays scheduled while
   * the timer no longer holds any, and the run's end time is gone.
   */
  lemma StopClickOrphansInterval(s: TimerState, now: nat, selection: string, minutes: int)
    requires Valid(s) && Running(s)
    requires selection != "" && minutes >= 1
    ensures var r := ClickStepAsWritten(s, now, selection, Some(minutes));
      && r.interval.None? && r.endTime.None? && r.taskId.None? && r.durationMinutes == 0
      && r.scheduled == s.scheduled && s.interval.value in r.scheduled
      && r.posted == s.posted && r.onclick == Some(StartHandler)
      && r.nextHandle == s.nextHandle + 1
  {
    var started := StartStep(s, now, selection, Some(minutes)).0;
    StartRecordsRun(s, now, selection, Some(minutes));
    assert started.onclick == Some(StopHandler);
    assert ClickStepAsWritten(s, now, selection, Some(minutes)) == StopStep(started);
    assert started.scheduled - {s.nextHandle} == s.scheduled;
  }

  /**
   * A firing of an interval the timer no longer holds, on a timer with no
   * end time: no time is left, so an entry with the timer's (cleared) task
   * and duration is posted, and the interval is not cleared, since
   * `timerInterval` is null; it fires again.
   */
  lemma OrphanTickPostsEmptyEntry(s: TimerState, handle: nat, now: nat)
    requires handle in s.scheduled && s.interval.None? && s.endTime.None?
    ensures var r := TickStep(s, handle, now);
      && r.posted == s.posted + [TimeEntry(s.taskId, s.durationMinutes)]
      && r.scheduled == s.scheduled && r.interval.None? && r.endTime.None?
      && r.taskId.None? && r.durationMinutes == 0
      && r.onclick == Some(StartHandler) && r.nextHandle == s.nextHandle
  {
  }

  /**
   * As written, once `onclick` is `startTimer` (as `resetTimerUI` leaves it)
   * a click with inputs that pass validation starts a run and stops it in
   * the same click: the timer ends idle, nothing is posted and no interval
   * is left scheduled beyond those already there.
   */
  lemma StartClickStopsAtOnce(s: TimerState, now: nat, selection: string, minutes: int)
    requires Valid(s) && s.onclick == Some(StartHandler) && s.interval.None?
    requires selection != "" && minutes >= 1
    ensures var r := ClickStepAsWritten(s, now, selection, Some(minutes));
      && Idle(r) && r.posted == s.posted && r.scheduled == s.scheduled
  {
    var started := StartStep(s, now, selection, Some(minutes)).0;
    assert started.onclick == Some(StopHandler) && started.interval == Some(s.nextHandle)
        && started.scheduled == s.scheduled + {s.nextHandle} && started.posted == s.posted by {
      StartRecordsRun(s, now, selection, Some(minutes));
    }
    assert ClickStepAsWritten(s, now, selection, Some(minutes)) == StopStep(started);
    assert StopStep(started).scheduled == s.scheduled;
  }

  /**
   * With the intended toggle, a click on a running timer stops it: the held
   * interval is cleared, nothing stays scheduled and nothing is posted.
   */
  lemma StopClickStopsRun(s: TimerState, now: nat, selection: string, duration: Option<int>)
    requires Valid(s) && Running(s)
    ensures var r := ClickStep(s, now, selection, duration);
      Idle(r) && r.scheduled == {} && r.posted == s.posted && Valid(r)
  {
  }

  /** A successful start from a fresh page: a valid running timer on interval 1 with nothing posted. */
  lemma StartFromInitial(now: nat, selection: string, minutes: int)
    requires selection != "" && minutes >= 1
    ensures var r := StartStep(Initial(), now, selection, Some(minutes)).0;
      && Valid(r) && Running(r) && r.interval == Some(1) && r.scheduled == {1} && r.nextHandle == 2
      && r.posted == [] && r.taskId == Some(selection) && r.durationMinutes == minutes
      && r.endTime == Some(now + minutes * 60 * 1000) && r.display == FormatTime(minutes * 60)
  {
    var r := StartStep(Initial(), now, selection, Some(minutes)).0;
    StartRecordsRun(Initial(), now, selection, Some(minutes));
    assert Running(r) && r.scheduled == {1};
  }

  lemma FormatTimeSamples()
    ensures FormatTime(0) == "00:00" && FormatTime(60) == "01:00"
  {
    assert Decimal.NatToString(1) == "1";
    assert Decimal.NatToString(0) == "0";
  }

  /** A run of one or two events is those events applied one after the other. */
  lemma RunSteps(s: TimerState, e0: Event, e1: Event)
    ensures Run(s, [e0]) == Step(s, e0)
    ensures Run(s, [e0, e1]) == Step(Step(s, e0), e1)
  {
    var s1 := Step(s, e0);
    assert Run(s, [e0]) == Run(s1, []) by { assert [e0][1..] == []; }
    assert Run(s1, [e1]) == Run(Step(s1, e1), []) by { assert [e1][1..] == []; }
    assert Run(s, [e0, e1]) == Run(s1, [e1]) by { assert [e0, e1][1..] == [e1]; }
  }

  /** A run that begins with `e` is `e` followed by the rest of the run. */
  lemma RunCons(s: TimerState, e: Event, events: seq<Event>)
    ensures Run(s, [e] + events) == Run(Step(s, e), events)
    ensures RunAsWritten(s, [e] + events) == RunAsWritten(StepAsWritten(s, e), events)
  {
    assert ([e] + events)[1..] == events;
  }

  /**
   * Task "7" started at `t0` for one minute shows 01:00; when the interval
   * fires a minute later exactly one entry for task "7" and one minute is
   * posted and the timer is idle at 00:00 with nothing scheduled.
   */
  lemma OneMinuteRun(t0: nat)
    ensures var started := Run(Initial(), [Click(t0, "7", Some(1))]);
      started.display == "01:00" && Running(started)
    ensures var done := Run(Initial(), [Click(t0, "7", Some(1)), Tick(1, t0 + 60 * 1000)]);
      && done.posted == [TimeEntry(Some("7"), 1)] && done.display == "00:00"
      && Idle(done) && done.scheduled == {}
  {
    var c, t := Click(t0, "7", Some(1)), Tick(1, t0 + 60 * 1000);
    RunSteps(Initial(), c, t);
    var s1 := Step(Initial(), c);
    assert Valid(s1) && Running(s1) && s1.display == "01:00" && 1 in s1.scheduled by {
      StartFromInitial(t0, "7", 1);
      FormatTimeSamples();
    }
    TickCompletesAtZero(s1, 1, t0 + 60 * 1000);
  }

  /**
   * Any run from a fresh page: task `selection` started at `t0` for
   * `minutes` minutes, and the first interval firing when the time is up,
   * posts exactly one entry with that task and duration and leaves the timer
   * idle with nothing scheduled.
   */
  lemma StartThenComplete(t0: nat, selection: string, minutes: int)
    requires selection != "" && minutes >= 1
    ensures var done := Run(Initial(), [Click(t0, selection, Some(minutes)), Tick(1, t0 + minutes * 60 * 1000)]);
      && done.posted == [TimeEntry(Some(selection), minutes)] && Idle(done) && done.scheduled == {}
  {
    var c, t := Click(t0, selection, Some(minutes)), Tick(1, t0 + minutes * 60 * 1000);
    RunSteps(Initial(), c, t);
    StartFromInitial(t0, selection, minutes);
    TickCompletesAtZero(Step(Initial(), c), 1, t0 + minutes * 60 * 1000);
  }

  /** Every event is a firing of interval `handle`. */
  predicate FiringsOf(events: seq<Event>, handle: nat) {
    forall i :: 0 <= i < |events| ==> events[i].Tick? && events[i].handle == handle
  }

  /** An interval the host still fires while the timer has forgotten its run. */
  predicate Orphaned(s: TimerState, handle: nat) {
    && handle in s.scheduled && s.interval.None? && s.endTime.None?
    && s.taskId.None? && s.durationMinutes == 0
  }

  /** `n` copies of the entry an orphaned interval posts: no task, zero minutes. */
  function EmptyEntries(n: nat): (r: seq<TimeEntry>)
    ensures |r| == n && forall i :: 0 <= i < n ==> r[i] == TimeEntry(None, 0)
  {
    if n == 0 then [] else EmptyEntries(n - 1) + [TimeEntry(None, 0)]
  }

  /**
   * An orphaned interval is never cleared: every one of its firings posts
   * an entry with no task and zero minutes, and it stays orphaned.
   */
  lemma {:induction false} OrphanKeepsPosting(s: TimerState, handle: nat, events: seq<Event>)
    requires Orphaned(s, handle) && FiringsOf(events, handle)
    ensures var r := RunAsWritten(s, events);
      Orphaned(r, handle) && r.posted == s.posted + EmptyEntries(|events|)
    decreases |events|
  {
    if events != [] {
      var next := StepAsWritten(s, events[0]);
      assert Orphaned(next, handle) && next.posted == s.posted + [TimeEntry(None, 0)] by {
        OrphanTickPostsEmptyEntry(s, handle, events[0].now);
      }
      assert FiringsOf(events[1..], handle);
      OrphanKeepsPosting(next, handle, events[1..]);
      var tail := events[1..];
      assert s.posted + [TimeEntry(None, 0)] + EmptyEntries(|tail|) == s.posted + EmptyEntries(|events|) by {
        assert EmptyEntries(|events|) == [TimeEntry(None, 0)] + EmptyEntries(|tail|);
      }
    }
  }

  /**
   * As written, a click that stops a running timer leaves its interval
   * orphaned: for every task, duration and clock reading, each later firing
   * of the interval the timer held posts an entry with no task and zero
   * minutes, and the interval is still scheduled at the end.
   */
  lemma OrphanedIntervalAsWritten(s: TimerState, now: nat, selection: string, minutes: int, firings: seq<Event>)
    requires Valid(s) && Running(s)
    requires selection != "" && minutes >= 1 && FiringsOf(firings, s.interval.value)
    ensures var r := RunAsWritten(s, [Click(now, selection, Some(minutes))] + firings);
      && r.posted == s.posted + EmptyEntries(|firings|)
      && s.interval.value in r.scheduled && r.interval.None?
  {
    var c := Click(now, selection, Some(minutes));
    RunCons(s, c, firings);
    var stopped := StepAsWritten(s, c);
    assert Orphaned(stopped, s.interval.value) && stopped.posted == s.posted by {
      StopClickOrphansInterval(s, now, selection, minutes);
    }
    OrphanKeepsPosting(stopped, s.interval.value, firings);
  }

  /** A timer that is idle with nothing scheduled ignores any firings. */
  lemma {:induction false} IdleIgnoresFirings(s: TimerState, handle: nat, events: seq<Event>)
    requires Idle(s) && s.scheduled == {} && FiringsOf(events, handle)
    ensures Run(s, events) == s
    decreases |events|
  {
    if events != [] {
      assert Step(s, events[0]) == s;
      assert FiringsOf(events[1..], handle);
      IdleIgnoresFirings(s, handle, events[1..]);
    }
  }

  /**
   * With the intended toggle the same click stops the run cleanly: the
   * interval is cleared, later firings find nothing scheduled, and nothing
   * is posted.
   */
  lemma StopClickCorrected(s: TimerState, now: nat, selection: string, duration: Option<int>, firings: seq<Event>)
    requires Valid(s) && Running(s) && FiringsOf(firings, s.interval.value)
    ensures var r := Run(s, [Click(now, selection, duration)] + firings);
      && r.posted == s.posted && r.scheduled == {} && Idle(r)
  {
    var c := Click(now, selection, duration);
    RunCons(s, c, firings);
    var stopped := Step(s, c);
    assert Idle(stopped) && stopped.scheduled == {} && stopped.posted == s.posted by {
      StopClickStopsRun(s, now, selection, duration);
    }
    IdleIgnoresFirings(stopped, s.interval.value, firings);
  }

  /**
   * As written, once a run has completed the button can no longer start
   * one: `resetTimerUI` set `onclick` to `startTimer`, so a click with a
   * selected task and a valid duration starts a run through the listener,
   * which sets `onclick` to `stopTimer`, which then stops it in the same
   * click. The timer ends idle with only the completed run's entry posted.
   */
  lemma RestartAsWritten(s: TimerState, handle: nat, now: nat, later: nat, selection: string, minutes: int)
    requires Valid(s) && handle in s.scheduled && Remaining(s.endTime, now) == 0
    requires selection != "" && minutes >= 1
    ensures var r := RunAsWritten(s, [Tick(handle, now), Click(later, selection, Some(minutes))]);
      && Idle(r) && r.scheduled == {} && r.posted == s.posted + [TimeEntry(s.taskId, s.durationMinutes)]
  {
    var t, c := Tick(handle, now), Click(later, selection, Some(minutes));
    var done := StepAsWritten(s, t);
    assert done.onclick == Some(StartHandler) && done.interval.None? && done.scheduled == {}
        && done.posted == s.posted + [TimeEntry(s.taskId, s.durationMinutes)] by {
      TickCompletesAtZero(s, handle, now);
    }
    StartClickStopsAtOnce(done, later, selection, minutes);
    RunCons(s, t, [c]);
    RunCons(done, c, []);
    assert [t] + [c] == [t, c];
  }

  /** With the intended toggle, the same click after a completed run starts the next run. */
  lemma RestartCorrected(s: TimerState, handle: nat, now: nat, later: nat, selection: string, minutes: int)
    requires Valid(s) && handle in s.scheduled && Remaining(s.endTime, now) == 0
    requires selection != "" && minutes >= 1
    ensures var r := Run(s, [Tick(handle, now), Click(later, selection, Some(minutes))]);
      && Running(r) && Valid(r) && r.durationMinutes == minutes && r.taskId == Some(selection)
      && r.posted == s.posted + [TimeEntry(s.taskId, s.durationMinutes)]
  {
    var t, c := Tick(handle, now), Click(later, selection, Some(minutes));
    var done := Step(s, t);
    assert Valid(done) by {
      StepKeepsValid(s, t);
    }
    assert Idle(done) && done.posted == s.posted + [TimeEntry(s.taskId, s.durationMinutes)] by {
      TickCompletesAtZero(s, handle, now);
    }
    assert Step(done, c) == StartStep(done, later, selection, Some(minutes)).0;
    StartFromIdleKeepsValid(done, later, selection, Some(minutes));
    StartRecordsRun(done, later, selection, Some(minutes));
    RunSteps(s, t, c);
  }

  /**
   * The part of `Valid` that the page keeps as wired: idle or running, never
   * a mix, and a held interval is scheduled and was handed out by the host.
   * Orphaned intervals may be scheduled besides it, and posted entries may
   * be empty.
   */
  predicate WiredValid(s: TimerState) {
    && (Idle(s) || Running(s))
    && s.nextHandle >= 1
    && (s.interval.Some? ==> s.interval.value in s.scheduled && 1 <= s.interval.value < s.nextHandle)
  }

  /** Any `startTimer` call, whether the timer is idle or not, keeps the wired invariant. */
  lemma StartKeepsWiredValid(s: TimerState, now: nat, selection: string, duration: Option<int>)
    requires WiredValid(s)
    ensures WiredValid(StartStep(s, now, selection, duration).0)
  {
    if StartStep(s, now, selection, duration).1 == Started {
      StartRecordsRun(s, now, selection, duration);
    }
  }

  /** One click as wired, or one firing, keeps the wired invariant and only appends entries. */
  lemma StepAsWrittenKeepsWiredValid(s: TimerState, e: Event)
    requires WiredValid(s)
    ensures WiredValid(StepAsWritten(s, e)) && s.posted <= StepAsWritten(s, e).posted
  {
    match e
    case Click(now, selection, duration) =>
      StartKeepsWiredValid(s, now, selection, duration);
      var afterListener := StartStep(s, now, selection, duration).0;
      if afterListener.onclick == Some(StartHandler) {
        StartKeepsWiredValid(afterListener, now, selection, duration);
      }
    case Tick(handle, now) =>
  }

  /**
   * Over any sequence of clicks as wired and firings, the timer stays idle
   * or running with its held interval scheduled, and entries are only
   * appended.
   */
  lemma {:induction false} RunAsWrittenKeepsWiredValid(s: TimerState, events: seq<Event>)
    requires WiredValid(s)
    ensures WiredValid(RunAsWritten(s, events)) && s.posted <= RunAsWritten(s, events).posted
    decreases |events|
  {
    if events != [] {
      StepAsWrittenKeepsWiredValid(s, events[0]);
      RunAsWrittenKeepsWiredValid(StepAsWritten(s, events[0]), events[1..]);
    }
  }

  /**
   * `timerCompleted` yields at its awaits after posting and before
   * `resetTimerUI`. A toggle click in that window finds no interval held and
   * starts a new run; the delayed reset then wipes that run's task, duration
   * and end time while its interval stays held and scheduled, so the timer
   * is no longer valid and the interval's next firing posts an entry with no
   * task and zero minutes.
   */
  lemma ToggleClickDuringCompletion(s: TimerState, now: nat, later: nat, selection: string, minutes: int)
    requires Valid(s) && Running(s) && selection != "" && minutes >= 1
    ensures var r := ResetStep(ClickStep(CompletionBeforeAwait(s), now, selection, Some(minutes)));
      && !Valid(r) && r.interval.Some? && r.interval.value in r.scheduled && r.endTime.None?
      && r.posted == s.posted + [TimeEntry(s.taskId, s.durationMinutes)]
      && TickStep(r, r.interval.value, later).posted == r.posted + [TimeEntry(None, 0)]
  {
    var pending := CompletionBeforeAwait(s);
    StartRecordsRun(pending, now, selection, Some(minutes));
  }

  /**
   * As wired, the same click is harmless: the listener starts a run, the
   * `onclick` still on `stopTimer` stops it, and the delayed reset leaves an
   * idle timer with nothing scheduled and only the completed run's entry.
   */
  lemma WiredClickDuringCompletion(s: TimerState, now: nat, selection: string, minutes: int)
    requires Valid(s) && Running(s) && selection != "" && minutes >= 1
    ensures var r := ResetStep(ClickStepAsWritten(CompletionBeforeAwait(s), now, selection, Some(minutes)));
      && Valid(r) && Idle(r) && r.scheduled == {}
      && r.posted == s.posted + [TimeEntry(s.taskId, s.durationMinutes)]
  {
    var pending := CompletionBeforeAwait(s);
    StartRecordsRun(pending, now, selection, Some(minutes));
    var started := StartStep(pending, now, selection, Some(minutes)).0;
    assert ClickStepAsWritten(pending, now, selection, Some(minutes)) == StopStep(started);
  }

  /** The timer as the script holds it: one field per piece of state. */
  class Timer {
    var interval: Option<nat>
    var endTime: Option<int>
    var taskId: Option<string>
    var durationMinutes: int
    var display: string
    var onclick: Option<Handler>
    var inputsDisabled: bool
    var scheduled: set<nat>
    var nextHandle: nat
    var posted: seq<TimeEntry>

    function State(): TimerState
      reads this
    {
      TimerState(interval, endTime, taskId, durationMinutes, display, onclick,
                 inputsDisabled, scheduled, nextHandle, posted)
    }

    /** The declarations at the top of the timer section. */
    constructor ()
      ensures State() == Initial() && Valid(State())
    {
      interval, endTime, taskId, durationMinutes := None, None, None, 0;
      display, onclick, inputsDisabled := "00:00", None, false;
      scheduled, nextHandle, posted := {}, 1, [];
    }

    method ResetTimerUI()
      modifies this
      ensures State() == ResetStep(old(State()))
    {
      display := "00:00";
      onclick := Some(StartHandler);
      inputsDisabled := false;
      taskId := None;
      durationMinutes := 0;
      endTime := None;
    }

    method StopTimer()
      modifies this
      ensures State() == StopStep(old(State()))
      ensures old(Valid(State())) ==> Valid(State()) && Idle(State()) && scheduled == {}
    {
      if interval.Some? {
        scheduled := scheduled - {interval.value};
        interval := None;
      }
      ResetTimerUI();
    }

    method TimerCompleted()
      modifies this
      ensures State() == CompleteStep(old(State()))
      ensures posted == old(posted) + [TimeEntry(old(taskId), old(durationMinutes))]
    {
      if interval.Some? {
        scheduled := scheduled - {interval.value};
        interval := None;
      }
      posted := posted + [TimeEntry(taskId, durationMinutes)];
      ResetTimerUI();
    }

    method UpdateTimer(now: nat)
      modifies this
      ensures State() == UpdateStep(old(State()), now)
      ensures Remaining(old(endTime), now) == 0 <==> |posted| == |old(posted)| + 1
    {
      var remaining := Remaining(endTime, now);
      display := FormatTime(remaining);
      if remaining == 0 {
        TimerCompleted();
      }
    }

    method StartTimer(now: nat, selection: string, duration: Option<int>) returns (outcome: StartOutcome)
      modifies this
      ensures (State(), outcome) == StartStep(old(State()), now, selection, duration)
      ensures outcome != Started ==> unchanged(this)
    {
      if selection == "" {
        return SelectTaskFirst;
      }
      if duration.None? || duration.value < 1 {
        return EnterDuration;
      }
      ghost var before := State();
      taskId := Some(selection);
      durationMinutes := duration.value;
      endTime := Some(now + duration.value * 60 * 1000);
      onclick := Some(StopHandler);
      inputsDisabled := true;
      interval := Some(nextHandle);
      scheduled := scheduled + {nextHandle};
      nextHandle := nextHandle + 1;
      assert State() == Begin(before, now, selection, duration.value);
      UpdateTimer(now);
      outcome := Started;
    }

    /** The host firing interval `handle`, which it only does while the handle is scheduled. */
    method IntervalFires(handle: nat, now: nat)
      requires handle in scheduled
      modifies this
      ensures State() == TickStep(old(State()), handle, now)
      ensures old(Valid(State())) ==> Valid(State())
    {
      ghost var before := State();
      UpdateTimer(now);
      if Valid(before) {
        StepKeepsValid(before, Tick(handle, now));
      }
    }

    /** A click on the button with the handlers the page registers. */
    method ClickTimerButtonAsWritten(now: nat, selection: string, duration: Option<int>)
      modifies this
      ensures State() == ClickStepAsWritten(old(State()), now, selection, duration)
    {
      var handlerRegistered := onclick.Some?;
      var first := StartTimer(now, selection, duration);
      if handlerRegistered {
        match onclick
        case Some(StartHandler) =>
          var second := StartTimer(now, selection, duration);
        case Some(StopHandler) =>
          StopTimer();
        case None =>
      }
    }

    /** A click that toggles: stop when running, start otherwise. */
    method ClickTimerButton(now: nat, selection: string, duration: Option<int>)
      modifies this
      ensures State() == ClickStep(old(State()), now, selection, duration)
      ensures old(Valid(State())) ==> Valid(State())
    {
      ghost var before := State();
      if interval.Some? {
        StopTimer();
      } else {
        var outcome := StartTimer(now, selection, duration);
      }
      if Valid(before) {
        StepKeepsValid(before, Click(now, selection, duration));
      }
    }
  }
}

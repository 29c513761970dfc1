/**
 * The `TaskManager` object: the four stored lists, the saved app state and the focus
 * timer, and the methods that change them step by step.
 */
module Manager {
  import opened Wrappers
  import opened Lists
  import opened Numbers
  import opened Dates
  import opened Records
  import opened Statistics
  import opened FocusEngine
  import opened Text

  /** The session length used when no goal is active and nothing else is chosen. */
  const DefaultMinutes: int := 25

  /** `completedDuration >= 20`: a countdown of at least 20 minutes counts as focus. */
  const FocusThresholdSeconds: int := 20 * 60

  /** The `timerState` object of the saved app state; a property the JSON lacks is `None`. */
  datatype TimerState = TimerState(minutes: Option<int>, seconds: Option<int>, isRunning: bool,
                                   totalSeconds: Option<int>, mode: Option<SessionType>)

  /** The saved app state: the last page shown and the timer snapshot. */
  datatype AppState = AppState(lastPage: string, timerState: Option<TimerState>)

  /** What `loadAppState` returns when nothing was saved. */
  const DefaultAppState: AppState :=
    AppState("home", Some(TimerState(Some(DefaultMinutes), Some(0), false, None, Some(Focus))))

  /** `value || fallback` on a number: a missing value and 0 are both falsy. */
  function OrElse(value: Option<int>, fallback: int): int {
    if value.Some? && value.value != 0 then value.value else fallback
  }

  /** The result of `calculateStats()`. */
  datatype Stats = Stats(completed: nat, pending: int, total: nat, percentage: int,
                         categories: seq<CategoryCount>, monthlyData: seq<MonthBucket>,
                         growthMetrics: GrowthMetrics)

  /** The snapshot `saveTimerState()` stores for a stopped timer with these fields. */
  function StoppedSnapshot(minutes: int, seconds: int, totalSeconds: int, mode: SessionType): TimerState {
    TimerState(Some(minutes), Some(seconds), false, Some(totalSeconds), Some(mode))
  }

  /** The `timer` object: a countdown of `minutes`:`seconds` out of `totalSeconds`. */
  class Timer {
    var minutes: int
    var seconds: int
    var totalSeconds: int
    var isRunning: bool
    var mode: SessionType

    /** Seconds left on the countdown. */
    function Remaining(): int
      reads this
    {
      minutes * 60 + seconds
    }

    /** The shape a countdown keeps: whole minutes left and a seconds field in 0..59. */
    predicate Valid()
      reads this
    {
      minutes >= 0 && 0 <= seconds < 60
    }

    /** `initializeFocusTimer()`: a stopped, full countdown of `duration` minutes. */
    constructor (duration: int)
      ensures minutes == duration && seconds == 0 && totalSeconds == duration * 60
      ensures !isRunning && mode == Focus
      ensures Remaining() == totalSeconds
      ensures duration >= 0 ==> Valid()
    {
      minutes, seconds, totalSeconds := duration, 0, duration * 60;
      isRunning, mode := false, Focus;
    }

    /** `setTimer(minutes)`: loads a full countdown; running state and mode are kept. */
    method SetTimer(m: int)
      modifies this
      ensures minutes == m && seconds == 0 && totalSeconds == m * 60
      ensures isRunning == old(isRunning) && mode == old(mode)
      ensures Remaining() == totalSeconds
      ensures m >= 0 ==> Valid()
    {
      minutes := m;
      seconds := 0;
      totalSeconds := m * 60;
    }

    /** The flag `startTimer()` raises before it schedules the ticks. */
    method Start()
      modifies this
      ensures isRunning
      ensures minutes == old(minutes) && seconds == old(seconds) && totalSeconds == old(totalSeconds)
      ensures mode == old(mode)
    {
      isRunning := true;
    }

    /** The flag `pauseTimer()` clears; the countdown itself stays where it is. */
    method Pause()
      modifies this
      ensures !isRunning
      ensures minutes == old(minutes) && seconds == old(seconds) && totalSeconds == old(totalSeconds)
      ensures mode == old(mode)
    {
      isRunning := false;
    }

    /**
     * The countdown half of one tick of `startTimer`: a second off, borrowing a minute
     * when the seconds are out. `expired` reports a countdown already at 00:00, which
     * it leaves untouched for the caller to complete.
     */
    method CountDown() returns (expired: bool)
      modifies this
      ensures expired <==> old(seconds) <= 0 && old(minutes) <= 0
      ensures old(seconds) > 0 ==> minutes == old(minutes) && seconds == old(seconds) - 1
      ensures old(seconds) <= 0 && old(minutes) > 0 ==> minutes == old(minutes) - 1 && seconds == 59
      ensures expired ==> minutes == old(minutes) && seconds == old(seconds)
      ensures totalSeconds == old(totalSeconds) && isRunning == old(isRunning) && mode == old(mode)
      ensures old(Valid()) ==> Valid() && (expired <==> old(Remaining()) == 0)
      ensures old(Valid()) && !expired ==> Remaining() == old(Remaining()) - 1
    {
      expired := false;
      if seconds > 0 {
        seconds := seconds - 1;
      } else if minutes > 0 {
        minutes := minutes - 1;
        seconds := 59;
      } else {
        expired := true;
      }
    }

    /** The object `saveTimerState()` stores. */
    function Snapshot(): (state: TimerState)
      reads this
      ensures state.minutes == Some(minutes) && state.seconds == Some(seconds)
      ensures state.totalSeconds == Some(totalSeconds)
      ensures state.isRunning == isRunning && state.mode == Some(mode)
    {
      TimerState(Some(minutes), Some(seconds), isRunning, Some(totalSeconds), Some(mode))
    }

    /**
     * `restoreTimerState(timerState)`: each field falls back when the saved one is falsy,
     * and a timer saved while running comes back stopped. Restoring a timer's own
     * snapshot gives it back unchanged unless its minutes or its total were 0.
     */
    method Restore(state: TimerState)
      modifies this
      ensures minutes == OrElse(state.minutes, DefaultMinutes)
      ensures seconds == OrElse(state.seconds, 0)
      ensures totalSeconds == OrElse(state.totalSeconds, DefaultMinutes * 60)
      ensures mode == state.mode.GetOr(Focus)
      ensures isRunning == (old(isRunning) && !state.isRunning)
      ensures state.isRunning ==> !isRunning
      ensures state == old(Snapshot()) && old(minutes) != 0 && old(totalSeconds) != 0 ==>
                minutes == old(minutes) && seconds == old(seconds) && totalSeconds == old(totalSeconds)
                && mode == old(mode) && !isRunning
      ensures state == old(Snapshot()) && old(minutes) == 0 ==>
                minutes == DefaultMinutes && seconds == old(seconds)
    {
      minutes := OrElse(state.minutes, DefaultMinutes);
      seconds := OrElse(state.seconds, 0);
      totalSeconds := OrElse(state.totalSeconds, DefaultMinutes * 60);
      mode := state.mode.GetOr(Focus);
      if state.isRunning {
        isRunning := false;
      }
    }
  }

  /** The task manager: the stored lists, the saved app state and the focus timer. */
  class TaskManager {
    var tasks: seq<Task>
    var dailyTasks: seq<Task>
    var focusSessions: seq<FocusSession>
    var focusGoals: seq<Goal>
    var appState: AppState
    const timer: Timer

    /**
     * What the store's own mutators keep: at most one active goal, and tasks whose
     * completion date is present exactly when they are completed and names a real instant.
     */
    predicate Valid()
      reads this
    {
      AtMostOneActive(focusGoals) && AllConsistent(tasks) && AllConsistent(dailyTasks)
      && AllWellDated(tasks) && AllWellDated(dailyTasks)
    }

    /** `activeGoal ? activeGoal.sessionDuration : 25`. */
    function GoalMinutes(): (m: int)
      reads this
      ensures ActiveGoal(focusGoals).None? ==> m == DefaultMinutes
      ensures ActiveGoal(focusGoals).Some? ==> m == ActiveGoal(focusGoals).value.sessionDuration
    {
      match ActiveGoal(focusGoals)
      case None => DefaultMinutes
      case Some(g) => g.sessionDuration
    }

    /**
     * `new TaskManager()`: the stored lists (empty when nothing was saved), the saved app
     * state, a stopped timer loaded with the active goal's session length, and the saved
     * timer restored when the last page shown was the focus page.
     */
    constructor (storedTasks: Option<seq<Task>>, storedDailyTasks: Option<seq<Task>>,
                 storedSessions: Option<seq<FocusSession>>, storedGoals: Option<seq<Goal>>,
                 storedAppState: Option<AppState>)
      ensures tasks == storedTasks.GetOr([]) && dailyTasks == storedDailyTasks.GetOr([])
      ensures focusSessions == storedSessions.GetOr([]) && focusGoals == storedGoals.GetOr([])
      ensures appState == storedAppState.GetOr(DefaultAppState)
      ensures fresh(timer) && !timer.isRunning
      ensures appState.lastPage != "focus" || appState.timerState.None? ==>
                timer.minutes == GoalMinutes() && timer.seconds == 0 && timer.totalSeconds == GoalMinutes() * 60
                && timer.mode == Focus
      ensures appState.lastPage == "focus" && appState.timerState.Some? ==>
                timer.minutes == OrElse(appState.timerState.value.minutes, DefaultMinutes)
                && timer.seconds == OrElse(appState.timerState.value.seconds, 0)
                && timer.totalSeconds == OrElse(appState.timerState.value.totalSeconds, DefaultMinutes * 60)
                && timer.mode == appState.timerState.value.mode.GetOr(Focus)
    {
      tasks := storedTasks.GetOr([]);
      dailyTasks := storedDailyTasks.GetOr([]);
      focusSessions := storedSessions.GetOr([]);
      focusGoals := storedGoals.GetOr([]);
      appState := storedAppState.GetOr(DefaultAppState);
      var minutes := match ActiveGoal(storedGoals.GetOr([]))
                     case None => DefaultMinutes
                     case Some(g) => g.sessionDuration;
      timer := new Timer(minutes);
      new;
      if appState.lastPage == "focus" && appState.timerState.Some? {
        timer.Restore(appState.timerState.value);
      }
    }

    /** `addTask(title, category)`: appends a fresh pending task and returns it. */
    method AddTask(title: string, category: string, now: Timestamp) returns (t: Task)
      modifies this
      ensures t == NewTask(title, category, now) && !t.completed
      ensures tasks == old(tasks) + [t]
      ensures dailyTasks == old(dailyTasks) && focusSessions == old(focusSessions)
      ensures focusGoals == old(focusGoals) && appState == old(appState)
      ensures old(Valid()) && ValidTimestamp(now) ==> Valid()
    {
      t := NewTask(title, category, now);
      tasks := tasks + [t];
    }

    /** `addDailyTask(title, time, priority)`: appends a fresh pending daily task and returns it. */
    method AddDailyTask(title: string, time: string, priority: Priority, now: Timestamp) returns (t: Task)
      modifies this
      ensures t == NewDailyTask(title, time, priority, now) && !t.completed
      ensures dailyTasks == old(dailyTasks) + [t]
      ensures tasks == old(tasks) && focusSessions == old(focusSessions)
      ensures focusGoals == old(focusGoals) && appState == old(appState)
      ensures old(Valid()) && ValidTimestamp(now) ==> Valid()
    {
      t := NewDailyTask(title, time, priority, now);
      dailyTasks := dailyTasks + [t];
    }

    /**
     * `toggleTask(taskId, isDaily)`: flips the first task with that id in the chosen list,
     * stamping or dropping its completion date; the other list is untouched.
     */
    method ToggleTask(taskId: string, isDaily: bool, now: Timestamp)
      modifies this
      ensures isDaily ==> dailyTasks == ToggleById(old(dailyTasks), taskId, now) && tasks == old(tasks)
      ensures !isDaily ==> tasks == ToggleById(old(tasks), taskId, now) && dailyTasks == old(dailyTasks)
      ensures focusSessions == old(focusSessions) && focusGoals == old(focusGoals) && appState == old(appState)
      ensures old(Valid()) && ValidTimestamp(now) ==> Valid()
    {
      if isDaily {
        dailyTasks := ToggleById(dailyTasks, taskId, now);
      } else {
        tasks := ToggleById(tasks, taskId, now);
      }
    }

    /** `deleteTask(taskId, isDaily)`: keeps the tasks of the chosen list whose id differs. */
    method DeleteTask(taskId: string, isDaily: bool)
      modifies this
      ensures isDaily ==> dailyTasks == RemoveTask(old(dailyTasks), taskId) && tasks == old(tasks)
      ensures !isDaily ==> tasks == RemoveTask(old(tasks), taskId) && dailyTasks == old(dailyTasks)
      ensures isDaily ==> forall t :: t in dailyTasks <==> t in old(dailyTasks) && t.id != taskId
      ensures !isDaily ==> forall t :: t in tasks <==> t in old(tasks) && t.id != taskId
      ensures focusSessions == old(focusSessions) && focusGoals == old(focusGoals) && appState == old(appState)
      ensures old(Valid()) ==> Valid()
    {
      if isDaily {
        RemoveTaskExact(dailyTasks, taskId);
        dailyTasks := RemoveTask(dailyTasks, taskId);
      } else {
        RemoveTaskExact(tasks, taskId);
        tasks := RemoveTask(tasks, taskId);
      }
    }

    /** `addFocusSession(duration, type)`: logs a completed session and returns it. */
    method AddFocusSession(duration: int, kind: SessionType, now: Timestamp) returns (s: FocusSession)
      modifies this
      ensures s == NewFocusSession(duration, kind, now)
      ensures focusSessions == old(focusSessions) + [s]
      ensures TotalFocusTime(focusSessions) == TotalFocusTime(old(focusSessions)) + (if kind == Focus then duration else 0)
      ensures tasks == old(tasks) && dailyTasks == old(dailyTasks)
      ensures focusGoals == old(focusGoals) && appState == old(appState)
      ensures old(Valid()) ==> Valid()
    {
      s := NewFocusSession(duration, kind, now);
      TotalFocusTimeAppend(focusSessions, s);
      focusSessions := focusSessions + [s];
    }

    /**
     * `updateTimerFromActiveGoal()`: a stopped timer is loaded with the active goal's
     * session length; a running timer, or one with no active goal, is left alone.
     */
    method UpdateTimerFromActiveGoal()
      modifies timer
      ensures ActiveGoal(focusGoals).Some? && !old(timer.isRunning) ==>
                timer.minutes == GoalMinutes() && timer.seconds == 0 && timer.totalSeconds == GoalMinutes() * 60
      ensures ActiveGoal(focusGoals).None? || old(timer.isRunning) ==>
                timer.minutes == old(timer.minutes) && timer.seconds == old(timer.seconds)
                && timer.totalSeconds == old(timer.totalSeconds)
      ensures timer.isRunning == old(timer.isRunning) && timer.mode == old(timer.mode)
    {
      match ActiveGoal(focusGoals)
      case None =>
      case Some(g) =>
        if !timer.isRunning {
          timer.SetTimer(g.sessionDuration);
        }
    }

    /**
     * The timer step of `loadGoalsToUI()`: once the goal list is redrawn, a non-empty list
     * makes the timer follow the active goal (the page's goal container is taken to exist).
     */
    method LoadGoalsToUI()
      modifies timer
      ensures |focusGoals| > 0 && ActiveGoal(focusGoals).Some? && !old(timer.isRunning) ==>
                timer.minutes == GoalMinutes() && timer.seconds == 0 && timer.totalSeconds == GoalMinutes() * 60
      ensures ActiveGoal(focusGoals).None? || old(timer.isRunning) ==>
                timer.minutes == old(timer.minutes) && timer.seconds == old(timer.seconds)
                && timer.totalSeconds == old(timer.totalSeconds)
      ensures timer.isRunning == old(timer.isRunning) && timer.mode == old(timer.mode)
    {
      if |focusGoals| > 0 {
        UpdateTimerFromActiveGoal();
      }
    }

    /** The `forEach` at the head of `addGoal`: clears `active` on every goal, one at a time. */
    method DeactivateGoals()
      modifies this
      ensures focusGoals == Deactivated(old(focusGoals))
      ensures CountWhere(focusGoals, (x: Goal) => x.active) == 0
      ensures tasks == old(tasks) && dailyTasks == old(dailyTasks)
      ensures focusSessions == old(focusSessions) && appState == old(appState)
    {
      var i := 0;
      while i < |focusGoals|
        invariant 0 <= i <= |focusGoals| == |old(focusGoals)|
        invariant forall j :: 0 <= j < i ==> focusGoals[j] == old(focusGoals)[j].(active := false)
        invariant forall j :: i <= j < |focusGoals| ==> focusGoals[j] == old(focusGoals)[j]
        invariant tasks == old(tasks) && dailyTasks == old(dailyTasks)
        invariant focusSessions == old(focusSessions) && appState == old(appState)
      {
        focusGoals := focusGoals[i := focusGoals[i].(active := false)];
        i := i + 1;
      }
      NoneCounted(focusGoals, (x: Goal) => x.active);
    }

    /**
     * `addGoal(...)`: switches every goal off, appends the new goal as the active one,
     * and loads a stopped timer with its session length.
     */
    method AddGoal(title: string, dailyTarget: int, duration: int, sessionCount: int, now: Timestamp,
                   sessionDuration: int := DefaultMinutes) returns (g: Goal)
      modifies this, timer
      ensures g == Goal(StampedId("goal_", now), title, dailyTarget, duration, sessionCount,
                        sessionDuration, now, true, now)
      ensures focusGoals == WithNewGoal(old(focusGoals), g)
      ensures AtMostOneActive(focusGoals) && ActiveGoal(focusGoals) == Some(g)
      ensures !old(timer.isRunning) ==>
                timer.minutes == sessionDuration && timer.seconds == 0 && timer.totalSeconds == sessionDuration * 60
      ensures old(timer.isRunning) ==>
                timer.minutes == old(timer.minutes) && timer.seconds == old(timer.seconds)
                && timer.totalSeconds == old(timer.totalSeconds)
      ensures timer.isRunning == old(timer.isRunning) && timer.mode == old(timer.mode)
      ensures tasks == old(tasks) && dailyTasks == old(dailyTasks)
      ensures focusSessions == old(focusSessions) && appState == old(appState)
      ensures old(Valid()) ==> Valid()
    {
      DeactivateGoals();
      g := Goal(StampedId("goal_", now), title, dailyTarget, duration, sessionCount,
                sessionDuration, now, true, now);
      focusGoals := focusGoals + [g];
      NewGoalIsTheActiveOne(old(focusGoals), g);
      UpdateTimerFromActiveGoal();
    }

    /** `saveTimerState()`: stores a snapshot of the timer in the app state. */
    method SaveTimerState()
      modifies this
      ensures appState == old(appState).(timerState := Some(timer.Snapshot()))
      ensures tasks == old(tasks) && dailyTasks == old(dailyTasks)
      ensures focusSessions == old(focusSessions) && focusGoals == old(focusGoals)
    {
      appState := appState.(timerState := Some(timer.Snapshot()));
    }

    /** `startTimer()`: raises the running flag; the ticks are calls of `Tick`. */
    method StartTimer()
      modifies timer
      ensures timer.isRunning
      ensures timer.minutes == old(timer.minutes) && timer.seconds == old(timer.seconds)
      ensures timer.totalSeconds == old(timer.totalSeconds) && timer.mode == old(timer.mode)
    {
      timer.Start();
    }

    /** `pauseTimer()`: stops the timer where it is and saves it. */
    method PauseTimer()
      modifies this, timer
      ensures !timer.isRunning
      ensures timer.minutes == old(timer.minutes) && timer.seconds == old(timer.seconds)
      ensures timer.totalSeconds == old(timer.totalSeconds) && timer.mode == old(timer.mode)
      ensures appState.timerState == Some(timer.Snapshot()) && appState.lastPage == old(appState.lastPage)
      ensures tasks == old(tasks) && dailyTasks == old(dailyTasks)
      ensures focusSessions == old(focusSessions) && focusGoals == old(focusGoals)
    {
      timer.Pause();
      SaveTimerState();
    }

    /**
     * `resetTimer()`: stops the timer and reloads it with the active goal's session
     * length, or else the active preset's minutes (`activePreset`, read from the page),
     * or else 25, then saves it.
     */
    method ResetTimer(activePreset: Option<int>)
      modifies this, timer
      ensures !timer.isRunning && timer.seconds == 0
      ensures ActiveGoal(focusGoals).Some? ==> timer.minutes == GoalMinutes()
      ensures ActiveGoal(focusGoals).None? ==> timer.minutes == activePreset.GetOr(DefaultMinutes)
      ensures timer.totalSeconds == timer.minutes * 60 && timer.Remaining() == timer.totalSeconds
      ensures timer.mode == old(timer.mode)
      ensures appState == old(appState).(timerState := Some(timer.Snapshot()))
      ensures tasks == old(tasks) && dailyTasks == old(dailyTasks)
      ensures focusSessions == old(focusSessions) && focusGoals == old(focusGoals)
    {
      PauseTimer();
      var minutes := match ActiveGoal(focusGoals)
                     case Some(g) => g.sessionDuration
                     case None => activePreset.GetOr(DefaultMinutes);
      timer.SetTimer(minutes);
      SaveTimerState();
    }

    /**
     * `completeTimer()`: stops the timer; a countdown of at least 20 minutes is logged as
     * a focus session of its length in minutes, rounded to the nearest; then the timer is
     * loaded with the active goal's session length, or 25.
     */
    method CompleteTimer(now: Timestamp) returns (logged: Option<FocusSession>)
      modifies this, timer
      ensures logged.Some? <==> old(timer.totalSeconds) >= FocusThresholdSeconds
      ensures logged.Some? ==>
                logged.value == NewFocusSession(RoundDiv(old(timer.totalSeconds), 60), Focus, now)
                && focusSessions == old(focusSessions) + [logged.value]
                && logged.value.duration >= 20
                && 120 * logged.value.duration - 60 <= 2 * old(timer.totalSeconds) < 120 * logged.value.duration + 60
      ensures logged.None? ==> focusSessions == old(focusSessions)
      ensures !timer.isRunning && timer.seconds == 0 && timer.mode == old(timer.mode)
      ensures timer.minutes == GoalMinutes() && timer.totalSeconds == GoalMinutes() * 60
      ensures appState == old(appState).(timerState := Some(StoppedSnapshot(old(timer.minutes), old(timer.seconds),
                                                                           old(timer.totalSeconds), old(timer.mode))))
      ensures tasks == old(tasks) && dailyTasks == old(dailyTasks) && focusGoals == old(focusGoals)
      ensures old(Valid()) ==> Valid()
    {
      PauseTimer();
      var total := timer.totalSeconds;
      if total >= FocusThresholdSeconds {
        RoundDivAtLeast(total, 60, 20);
        var s := AddFocusSession(RoundDiv(total, 60), Focus, now);
        logged := Some(s);
      } else {
        logged := None;
      }
      timer.SetTimer(GoalMinutes());
    }

    /**
     * One tick of the interval `startTimer()` schedules: count a second down and save
     * the timer, or complete it when it already shows 00:00.
     */
    method Tick(now: Timestamp) returns (logged: Option<FocusSession>)
      modifies this, timer
      ensures old(timer.Valid()) && old(timer.Remaining()) > 0 ==>
                timer.Valid() && timer.Remaining() == old(timer.Remaining()) - 1 && logged.None?
                && timer.isRunning == old(timer.isRunning) && timer.totalSeconds == old(timer.totalSeconds)
                && timer.mode == old(timer.mode)
                && focusSessions == old(focusSessions) && appState == old(appState).(timerState := Some(timer.Snapshot()))
      ensures old(timer.Valid()) && old(timer.Remaining()) == 0 ==>
                !timer.isRunning && timer.minutes == GoalMinutes() && timer.seconds == 0
                && timer.totalSeconds == GoalMinutes() * 60 && timer.mode == old(timer.mode)
                && (logged.Some? <==> old(timer.totalSeconds) >= FocusThresholdSeconds)
                && (logged.Some? ==> logged.value == NewFocusSession(RoundDiv(old(timer.totalSeconds), 60), Focus, now)
                                     && logged.value.duration >= 20)
                && appState == old(appState).(timerState := Some(StoppedSnapshot(0, 0, old(timer.totalSeconds), old(timer.mode))))
      ensures logged.None? ==> focusSessions == old(focusSessions)
      ensures logged.Some? ==> focusSessions == old(focusSessions) + [logged.value]
      ensures tasks == old(tasks) && dailyTasks == old(dailyTasks) && focusGoals == old(focusGoals)
      ensures old(Valid()) ==> Valid()
    {
      var expired := timer.CountDown();
      if expired {
        logged := CompleteTimer(now);
      } else {
        logged := None;
        SaveTimerState();
      }
    }

    /**
     * `calculateStats()`: counts over the tasks and daily tasks together, the per-category
     * tally, the three-month histogram and the growth metrics.
     */
    method CalculateStats(now: Timestamp) returns (st: Stats)
      requires ValidTimestamp(now) && AllWellDated(tasks + dailyTasks)
      ensures st.total == |tasks| + |dailyTasks| && st.completed == CompletedCount(tasks + dailyTasks)
      ensures st.completed + st.pending == st.total && st.pending >= 0
      ensures st.percentage == Percentage(st.completed, st.total)
      ensures 0 <= st.percentage <= 100 && (st.total > 0 && st.pending == 0 ==> st.percentage == 100)
      ensures st.categories == CategoryTally(tasks + dailyTasks)
      ensures SumTotals(st.categories) == st.total && SumCompleted(st.categories) == st.completed
      ensures st.monthlyData == MonthlyHistogram(tasks + dailyTasks, now)
      ensures st.growthMetrics.currentMonthCompleted == CurrentMonthCount(tasks + dailyTasks, now)
      ensures st.growthMetrics.lastMonthCompleted == LastMonthCount(tasks + dailyTasks, now)
      ensures st.growthMetrics.growthPercentage
              == GrowthPercentage(st.growthMetrics.currentMonthCompleted, st.growthMetrics.lastMonthCompleted)
      ensures st.growthMetrics.isPositiveGrowth <==> st.growthMetrics.growthPercentage >= 0
      ensures st.growthMetrics.currentMonthCompleted + st.growthMetrics.lastMonthCompleted <= st.completed
    {
      var all := tasks + dailyTasks;
      var completed := CompletedCount(all);
      var total := |all|;
      var categories := TallyCategories(all);
      TallySums(all);
      var monthly := CalculateMonthlyData(all, now);
      var growth := CalculateGrowthMetrics(all, now);
      GrowthCountsBound(all, now);
      st := Stats(completed, total - completed, total, Percentage(completed, total), categories, monthly, growth);
    }
  }

  /**
   * A countdown loaded with a goal's session length, when that is at least 20 minutes,
   * is logged on completion as a session of exactly that length, and the session counts
   * towards the goal today: the goal's count of today's sessions goes up by one.
   */
  lemma FullCountdownCounts(sessions: seq<FocusSession>, goal: Goal, now: Timestamp)
    requires goal.sessionDuration * 60 >= FocusThresholdSeconds
    ensures var logged := NewFocusSession(RoundDiv(goal.sessionDuration * 60, 60), Focus, now);
            logged.duration == goal.sessionDuration && CountsTowardGoal(logged, goal, now)
            && TodayCompletedSessions(sessions + [logged], goal, now) == TodayCompletedSessions(sessions, goal, now) + 1
  {
    RoundDivExact(goal.sessionDuration, 60);
    var logged := NewFocusSession(RoundDiv(goal.sessionDuration * 60, 60), Focus, now);
    CountAppend(sessions, logged, (s: FocusSession) => CountsTowardGoal(s, goal, now));
  }

  /** A parsed number field is usable when it is a number (not `NaN`, here `None`) other than 0. */
  predicate Truthy(value: Option<int>) {
    value.Some? && value.value != 0
  }

  /**
   * `updateGoal(goalId)`: the trimmed title and the four parsed numbers must all be truthy;
   * then they are written into the first goal with that id, and when there is one the
   * goal list is redrawn, so a stopped timer follows the active goal's (possibly new)
   * session length. The one-active-goal rule is kept.
   */
  method UpdateGoal(tm: TaskManager, goalId: string, titleInput: string, sessionCount: Option<int>,
                    sessionDuration: Option<int>, dailyTarget: Option<int>, duration: Option<int>)
    returns (accepted: bool)
    modifies tm, tm.timer
    ensures accepted <==> Trim(titleInput) != "" && Truthy(sessionCount) && Truthy(sessionDuration)
                          && Truthy(dailyTarget) && Truthy(duration)
    ensures accepted ==>
              tm.focusGoals == EditGoal(old(tm.focusGoals), goalId, Trim(titleInput), sessionCount.value,
                                        sessionDuration.value, dailyTarget.value, duration.value)
    ensures !accepted ==> tm.focusGoals == old(tm.focusGoals)
    ensures ActiveGoal(tm.focusGoals).Some? <==> ActiveGoal(old(tm.focusGoals)).Some?
    ensures accepted && HasGoal(old(tm.focusGoals), goalId) && ActiveGoal(tm.focusGoals).Some?
            && !old(tm.timer.isRunning) ==>
              tm.timer.minutes == tm.GoalMinutes() && tm.timer.seconds == 0
              && tm.timer.totalSeconds == tm.GoalMinutes() * 60
    ensures !(accepted && HasGoal(old(tm.focusGoals), goalId)) || ActiveGoal(tm.focusGoals).None?
            || old(tm.timer.isRunning) ==>
              tm.timer.minutes == old(tm.timer.minutes) && tm.timer.seconds == old(tm.timer.seconds)
              && tm.timer.totalSeconds == old(tm.timer.totalSeconds)
    ensures tm.timer.isRunning == old(tm.timer.isRunning) && tm.timer.mode == old(tm.timer.mode)
    ensures tm.tasks == old(tm.tasks) && tm.dailyTasks == old(tm.dailyTasks)
    ensures tm.focusSessions == old(tm.focusSessions) && tm.appState == old(tm.appState)
    ensures old(tm.Valid()) ==> tm.Valid()
  {
    var title := Trim(titleInput);
    if title == [] || !Truthy(sessionCount) || !Truthy(sessionDuration) || !Truthy(dailyTarget) || !Truthy(duration) {
      return false;
    }
    var found := FindFirst(tm.focusGoals, (g: Goal) => g.id == goalId);
    tm.focusGoals := EditGoal(tm.focusGoals, goalId, title, sessionCount.value, sessionDuration.value,
                              dailyTarget.value, duration.value);
    if found.Some? {
      tm.LoadGoalsToUI();
    }
    accepted := true;
  }

  /**
   * `deleteGoal(goalId)`: keeps the goals whose id differs, then redraws the goal list,
   * so a stopped timer follows the remaining active goal, if any.
   */
  method DeleteGoal(tm: TaskManager, goalId: string)
    modifies tm, tm.timer
    ensures tm.focusGoals == RemoveGoal(old(tm.focusGoals), goalId)
    ensures forall g :: g in tm.focusGoals <==> g in old(tm.focusGoals) && g.id != goalId
    ensures ActiveGoal(tm.focusGoals).Some? && !old(tm.timer.isRunning) ==>
              tm.timer.minutes == tm.GoalMinutes() && tm.timer.seconds == 0
              && tm.timer.totalSeconds == tm.GoalMinutes() * 60
    ensures ActiveGoal(tm.focusGoals).None? || old(tm.timer.isRunning) ==>
              tm.timer.minutes == old(tm.timer.minutes) && tm.timer.seconds == old(tm.timer.seconds)
              && tm.timer.totalSeconds == old(tm.timer.totalSeconds)
    ensures tm.timer.isRunning == old(tm.timer.isRunning) && tm.timer.mode == old(tm.timer.mode)
    ensures tm.tasks == old(tm.tasks) && tm.dailyTasks == old(tm.dailyTasks)
    ensures tm.focusSessions == old(tm.focusSessions) && tm.appState == old(tm.appState)
    ensures old(tm.Valid()) ==> tm.Valid()
  {
    if AtMostOneActive(tm.focusGoals) {
      RemoveGoalKeepsOneActive(tm.focusGoals, goalId);
    }
    tm.focusGoals := RemoveGoal(tm.focusGoals, goalId);
    tm.LoadGoalsToUI();
  }
}

/**
 * The focus engine: today's qualifying sessions, goal progress, the days left on a goal,
 * the day streak and the total focus time, all read from the session and goal lists.
 */
module FocusEngine {
  import opened Wrappers
  import opened Lists
  import opened Numbers
  import opened Dates
  import opened Records

  // ----- goal progress -----

  /** Minutes a session may fall short of the goal's session length and still count. */
  const Tolerance: int := 5

  /**
   * A session counts towards a goal when it was logged on the same calendar day as `now`,
   * is a focus session, and lasted at least the goal's session length less the tolerance.
   */
  predicate CountsTowardGoal(s: FocusSession, goal: Goal, now: Timestamp) {
    SameDay(s.date, now) && s.duration >= goal.sessionDuration - Tolerance && s.kind == Focus
  }

  /** `getTodayCompletedSessions(goal)`. */
  function TodayCompletedSessions(sessions: seq<FocusSession>, goal: Goal, now: Timestamp): (n: nat)
    ensures n <= |sessions|
  {
    CountWhere(sessions, (s: FocusSession) => CountsTowardGoal(s, goal, now))
  }

  /**
   * `Math.min(Math.round((n / sessionCount) * 100), 100)`: the share of the day's sessions
   * done, in whole percent, capped at 100.
   */
  function Progress(n: nat, sessionCount: int): (r: int)
    requires sessionCount >= 1
    ensures 0 <= r <= 100
    ensures n == 0 ==> r == 0
    ensures r == 100 <==> 200 * n >= 199 * sessionCount
    ensures n >= sessionCount ==> r == 100
  {
    RoundDivExact(0, sessionCount);
    RoundDivMonotone(0, 100 * n, sessionCount);
    RoundDivAtLeast(100 * n, sessionCount, 100);
    Min(RoundDiv(100 * n, sessionCount), 100)
  }

  /** More sessions never lower the progress. */
  lemma ProgressMonotone(n1: nat, n2: nat, sessionCount: int)
    requires sessionCount >= 1 && n1 <= n2
    ensures Progress(n1, sessionCount) <= Progress(n2, sessionCount)
  {
    RoundDivMonotone(100 * n1, 100 * n2, sessionCount);
  }

  /** Below the cap, the progress is the nearest whole percentage of n out of sessionCount. */
  lemma ProgressNearest(n: nat, sessionCount: int)
    requires sessionCount >= 1 && 200 * n < 199 * sessionCount
    ensures var r := Progress(n, sessionCount);
            2 * sessionCount * r <= 200 * n + sessionCount < 2 * sessionCount * (r + 1)
  {
  }

  /** `calculateGoalProgressForGoal(goal)`. */
  function GoalProgressForGoal(sessions: seq<FocusSession>, goal: Goal, now: Timestamp): (r: int)
    requires goal.sessionCount >= 1
    ensures 0 <= r <= 100
    ensures TodayCompletedSessions(sessions, goal, now) >= goal.sessionCount ==> r == 100
    ensures TodayCompletedSessions(sessions, goal, now) == 0 ==> r == 0
  {
    Progress(TodayCompletedSessions(sessions, goal, now), goal.sessionCount)
  }

  /** Every goal the forms create asks for at least one session a day. */
  predicate GoalsWellFormed(goals: seq<Goal>) {
    forall i :: 0 <= i < |goals| ==> goals[i].sessionCount >= 1
  }

  /** `calculateGoalProgress()`: the progress of the first active goal, 0 when none is active. */
  function GoalProgress(sessions: seq<FocusSession>, goals: seq<Goal>, now: Timestamp): (r: int)
    requires GoalsWellFormed(goals)
    ensures 0 <= r <= 100
    ensures ActiveGoal(goals).None? ==> r == 0
    ensures ActiveGoal(goals).Some? ==> r == GoalProgressForGoal(sessions, ActiveGoal(goals).value, now)
  {
    match ActiveGoal(goals)
    case None => 0
    case Some(g) => GoalProgressForGoal(sessions, g, now)
  }

  /** Logging a session never lowers the progress of any goal. */
  lemma AddSessionNeverLowersProgress(sessions: seq<FocusSession>, s: FocusSession, goal: Goal, now: Timestamp)
    requires goal.sessionCount >= 1
    ensures GoalProgressForGoal(sessions, goal, now) <= GoalProgressForGoal(sessions + [s], goal, now)
    ensures !CountsTowardGoal(s, goal, now) ==>
              GoalProgressForGoal(sessions + [s], goal, now) == GoalProgressForGoal(sessions, goal, now)
  {
    CountAppend(sessions, s, (x: FocusSession) => CountsTowardGoal(x, goal, now));
    ProgressMonotone(TodayCompletedSessions(sessions, goal, now), TodayCompletedSessions(sessions + [s], goal, now),
                     goal.sessionCount);
  }

  /**
   * A goal of 4 sessions of 25 minutes: today's 24-minute and 26-minute focus sessions
   * count, a 19-minute one, a break and yesterday's session do not, so progress is 50%.
   */
  lemma ProgressExample(goal: Goal, now: Timestamp, yesterday: Timestamp)
    requires goal.sessionCount == 4 && goal.sessionDuration == 25
    requires DayNumber(yesterday) == DayNumber(now) - 1
    ensures var sessions := [FocusSession("a", 24, Focus, now, true), FocusSession("b", 19, Focus, now, true),
                             FocusSession("c", 30, Break, now, true), FocusSession("d", 40, Focus, yesterday, true),
                             FocusSession("e", 26, Focus, now, true)];
            TodayCompletedSessions(sessions, goal, now) == 2 && GoalProgressForGoal(sessions, goal, now) == 50
  {
    var sessions := [FocusSession("a", 24, Focus, now, true), FocusSession("b", 19, Focus, now, true),
                     FocusSession("c", 30, Break, now, true), FocusSession("d", 40, Focus, yesterday, true),
                     FocusSession("e", 26, Focus, now, true)];
    var counts := (s: FocusSession) => CountsTowardGoal(s, goal, now);
    assert CountWhere(sessions[..1], counts) == 1 by { assert sessions[..1][..0] == []; }
    assert CountWhere(sessions[..2], counts) == 1 by { assert sessions[..2][..1] == sessions[..1]; }
    assert CountWhere(sessions[..3], counts) == 1 by { assert sessions[..3][..2] == sessions[..2]; }
    assert CountWhere(sessions[..4], counts) == 1 by { assert sessions[..4][..3] == sessions[..3]; }
    assert CountWhere(sessions, counts) == 2 by { assert sessions[..4] == sessions[..|sessions| - 1]; }
    RoundDivExact(50, 4);
  }

  // ----- days left -----

  /**
   * `calculateDaysLeft(goal)`: whole days, rounded up, from `now` to the goal's start plus
   * its duration in days; never negative.
   */
  function DaysLeft(goal: Goal, now: Timestamp): (r: int)
    ensures r >= 0
    ensures r == 0 <==> EpochMillis(goal.startDate) + goal.duration * MsPerDay <= EpochMillis(now)
  {
    var diff := EpochMillis(goal.startDate) + goal.duration * MsPerDay - EpochMillis(now);
    assert CeilDiv(diff, MsPerDay) <= 0 <==> diff <= 0 by {
      if diff <= 0 {
        CeilDivMonotone(diff, 0, MsPerDay);
        CeilDivExact(0, MsPerDay);
      } else {
        CeilDivMonotone(1, diff, MsPerDay);
        CeilDivExact(1, MsPerDay);
      }
    }
    Max(0, CeilDiv(diff, MsPerDay))
  }

  /** At the very instant a goal starts, all its days are left. */
  lemma DaysLeftAtStart(goal: Goal)
    requires goal.duration >= 0
    ensures DaysLeft(goal, goal.startDate) == goal.duration
  {
    assert goal.duration * MsPerDay == MsPerDay * goal.duration;
    CeilDivExact(goal.duration, MsPerDay);
  }

  /** As time passes the days left never go up, and they never exceed the goal's duration once it has started. */
  lemma DaysLeftMonotone(goal: Goal, now1: Timestamp, now2: Timestamp)
    requires EpochMillis(now1) <= EpochMillis(now2)
    ensures DaysLeft(goal, now2) <= DaysLeft(goal, now1)
    ensures EpochMillis(goal.startDate) <= EpochMillis(now1) ==> DaysLeft(goal, now1) <= Max(0, goal.duration)
  {
    var base := EpochMillis(goal.startDate) + goal.duration * MsPerDay;
    CeilDivMonotone(base - EpochMillis(now2), base - EpochMillis(now1), MsPerDay);
    if EpochMillis(goal.startDate) <= EpochMillis(now1) {
      CeilDivMonotone(base - EpochMillis(now1), goal.duration * MsPerDay, MsPerDay);
      assert goal.duration * MsPerDay == MsPerDay * goal.duration;
      CeilDivExact(goal.duration, MsPerDay);
    }
  }

  // ----- streak -----

  /** `focusSessions.some(session => new Date(session.date).toDateString() === day)`. */
  function HasSessionOn(sessions: seq<FocusSession>, day: int): (b: bool)
    ensures b <==> exists i :: 0 <= i < |sessions| && DayNumber(sessions[i].date) == day
  {
    FindFirst(sessions, (s: FocusSession) => DayNumber(s.date) == day).Some?
  }

  /** The earliest day with a session. */
  function FirstDay(sessions: seq<FocusSession>): (d: int)
    requires sessions != []
    ensures forall i :: 0 <= i < |sessions| ==> d <= DayNumber(sessions[i].date)
  {
    if |sessions| == 1 then DayNumber(sessions[0].date)
    else
      var rest := FirstDay(sessions[1..]);
      assert forall i :: 1 <= i < |sessions| ==> sessions[i] == sessions[1..][i - 1];
      Min(DayNumber(sessions[0].date), rest)
  }

  /** No day before the first session day has a session. */
  lemma FirstDayIsFirst(sessions: seq<FocusSession>)
    requires sessions != []
    ensures forall d :: HasSessionOn(sessions, d) ==> FirstDay(sessions) <= d
  {
  }

  /**
   * A streak of `n` days ending today: each of the `n` days up to and including today
   * has a session, and the day before them has none.
   */
  predicate IsStreak(sessions: seq<FocusSession>, today: int, n: nat) {
    (forall d :: today - n < d <= today ==> HasSessionOn(sessions, d)) && !HasSessionOn(sessions, today - n)
  }

  /** `calculateCurrentStreak()`: walk back from today one day at a time while each day has a session. */
  method CalculateCurrentStreak(sessions: seq<FocusSession>, now: Timestamp) returns (streak: nat)
    ensures IsStreak(sessions, DayNumber(now), streak)
  {
    if |sessions| == 0 {
      return 0;
    }
    var today := DayNumber(now);
    streak := 0;
    var cursor := today;
    ghost var first := FirstDay(sessions);
    FirstDayIsFirst(sessions);
    while true
      invariant cursor == today - streak
      invariant forall d :: cursor < d <= today ==> HasSessionOn(sessions, d)
      decreases cursor - first + 1
    {
      if HasSessionOn(sessions, cursor) {
        streak := streak + 1;
        cursor := cursor - 1;
      } else {
        break;
      }
    }
  }

  /** There is only one streak length, so the method's result is determined by the sessions and the day. */
  lemma StreakUnique(sessions: seq<FocusSession>, today: int, n1: nat, n2: nat)
    requires IsStreak(sessions, today, n1) && IsStreak(sessions, today, n2)
    ensures n1 == n2
  {
    assert n1 < n2 ==> HasSessionOn(sessions, today - n1);
    assert n2 < n1 ==> HasSessionOn(sessions, today - n2);
  }

  /** The walk back stops at the first session day at the latest, and without sessions the streak is 0. */
  lemma StreakBounded(sessions: seq<FocusSession>, today: int, n: nat)
    requires IsStreak(sessions, today, n)
    ensures sessions == [] ==> n == 0
    ensures sessions != [] ==> n <= Max(0, today - FirstDay(sessions) + 1)
  {
    assert n > 0 ==> HasSessionOn(sessions, today);
    if sessions != [] {
      FirstDayIsFirst(sessions);
      assert n > 0 ==> HasSessionOn(sessions, today - n + 1);
    }
  }

  /** A logged session adds its own day to the days that have a session. */
  lemma HasSessionOnAppend(sessions: seq<FocusSession>, s: FocusSession, d: int)
    ensures HasSessionOn(sessions + [s], d) <==> HasSessionOn(sessions, d) || DayNumber(s.date) == d
  {
    var all := sessions + [s];
    if HasSessionOn(sessions, d) {
      var i :| 0 <= i < |sessions| && DayNumber(sessions[i].date) == d;
      assert all[i] == sessions[i];
    }
    if HasSessionOn(all, d) {
      var i :| 0 <= i < |all| && DayNumber(all[i].date) == d;
      assert i < |sessions| ==> all[i] == sessions[i];
    }
    assert all[|sessions|] == s;
  }

  /**
   * Logging the first session of today turns the streak that ended yesterday, of any
   * length, into a streak one day longer ending today.
   */
  lemma SessionTodayExtendsStreak(sessions: seq<FocusSession>, s: FocusSession, today: int, n: nat)
    requires IsStreak(sessions, today - 1, n) && DayNumber(s.date) == today
    ensures IsStreak(sessions + [s], today, n + 1)
  {
    forall d | today - (n + 1) < d <= today ensures HasSessionOn(sessions + [s], d) {
      HasSessionOnAppend(sessions, s, d);
    }
    HasSessionOnAppend(sessions, s, today - (n + 1));
  }

  // ----- total focus time -----

  /** `focusSessions.filter(s => s.type === 'focus').reduce((total, s) => total + s.duration, 0)`. */
  function TotalFocusTime(sessions: seq<FocusSession>): (total: int)
    ensures (forall i :: 0 <= i < |sessions| ==> sessions[i].duration >= 0) ==> total >= 0
  {
    if sessions == [] then 0
    else
      var last := sessions[|sessions| - 1];
      TotalFocusTime(sessions[..|sessions| - 1]) + (if last.kind == Focus then last.duration else 0)
  }

  /** Logging a session adds its length to the total if it is a focus session, and nothing if it is a break. */
  lemma TotalFocusTimeAppend(sessions: seq<FocusSession>, s: FocusSession)
    ensures TotalFocusTime(sessions + [s]) == TotalFocusTime(sessions) + (if s.kind == Focus then s.duration else 0)
  {
    assert (sessions + [s])[..|sessions|] == sessions;
  }

  /** The plain sum of the sessions' lengths, whatever their kind. */
  function SumDurations(sessions: seq<FocusSession>): int {
    if sessions == [] then 0 else SumDurations(sessions[..|sessions| - 1]) + sessions[|sessions| - 1].duration
  }

  /** The total is the plain sum over the focus sessions alone: the breaks add nothing. */
  lemma {:induction false} TotalFocusTimeIgnoresBreaks(sessions: seq<FocusSession>)
    ensures TotalFocusTime(sessions) == SumDurations(Filter(sessions, (s: FocusSession) => s.kind == Focus))
  {
    if sessions != [] {
      var init, last := sessions[..|sessions| - 1], sessions[|sessions| - 1];
      TotalFocusTimeIgnoresBreaks(init);
      var kept := Filter(init, (s: FocusSession) => s.kind == Focus);
      if last.kind == Focus {
        assert (kept + [last])[..|kept|] == kept;
      }
    }
  }
}

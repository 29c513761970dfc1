/**
 * The records the task manager stores (tasks, daily tasks, focus sessions, focus goals)
 * and the pure list updates its mutators perform on them.
 */
module Records {
  import opened Wrappers
  import opened Lists
  import opened Dates
  import Text

  datatype Priority = Low | Medium | High

  /** What distinguishes a freeform task (a category) from a daily task (a time and a priority). */
  datatype Detail = General(category: string) | Daily(time: string, priority: Priority)

  /** A task or a daily task; `completedDate` is the optional `completedDate` property. */
  datatype Task = Task(id: string, title: string, detail: Detail, completed: bool,
                       createdDate: Timestamp, completedDate: Option<Timestamp>)

  datatype SessionType = Focus | Break

  datatype FocusSession = FocusSession(id: string, duration: int, kind: SessionType,
                                       date: Timestamp, completed: bool)

  /** A focus goal: `duration` in days, `sessionCount` sessions a day of `sessionDuration` minutes. */
  datatype Goal = Goal(id: string, title: string, dailyTarget: int, duration: int,
                       sessionCount: int, sessionDuration: int, startDate: Timestamp,
                       active: bool, created: Timestamp)

  const DefaultCategory: string := "Personal"

  /** `task.category || 'Personal'`: daily tasks have no category, and the empty one is falsy. */
  function CategoryOf(t: Task): (c: string)
    ensures c != ""
    ensures t.detail.General? && t.detail.category != "" ==> c == t.detail.category
  {
    if t.detail.General? && t.detail.category != "" then t.detail.category else DefaultCategory
  }

  /** The pairing the store keeps: a task carries a completion date exactly when it is completed. */
  predicate CompletionConsistent(t: Task) {
    t.completed <==> t.completedDate.Some?
  }

  predicate AllConsistent(ts: seq<Task>) {
    forall i :: 0 <= i < |ts| ==> CompletionConsistent(ts[i])
  }

  /** Dates come from `new Date()` and `toISOString()`, so they name real calendar instants. */
  predicate WellDated(t: Task) {
    ValidTimestamp(t.createdDate) && (t.completedDate.Some? ==> ValidTimestamp(t.completedDate.value))
  }

  predicate AllWellDated(ts: seq<Task>) {
    forall i :: 0 <= i < |ts| ==> WellDated(ts[i])
  }

  /** `prefix + Date.now()`: record ids are the creation instant in milliseconds. */
  function StampedId(prefix: string, now: Timestamp): (id: string)
    ensures |id| > |prefix| && id[..|prefix|] == prefix
  {
    prefix + Text.IntToString(EpochMillis(now))
  }

  /** The record `addTask` appends. */
  function NewTask(title: string, category: string, now: Timestamp): (t: Task)
    ensures !t.completed && CompletionConsistent(t)
    ensures t.detail == General(category) && t.title == title && t.createdDate == now
  {
    Task(StampedId("task_", now), title, General(category), false, now, None)
  }

  /** The record `addDailyTask` appends. */
  function NewDailyTask(title: string, time: string, priority: Priority, now: Timestamp): (t: Task)
    ensures !t.completed && CompletionConsistent(t)
    ensures t.detail == Daily(time, priority) && t.title == title && t.createdDate == now
  {
    Task(StampedId("daily_", now), title, Daily(time, priority), false, now, None)
  }

  /** The record `addFocusSession` appends; sessions are logged as completed. */
  function NewFocusSession(duration: int, kind: SessionType, now: Timestamp): (s: FocusSession)
    ensures s.completed && s.duration == duration && s.kind == kind && s.date == now
  {
    FocusSession(StampedId("focus_", now), duration, kind, now, true)
  }

  // ----- toggleTask -----

  /**
   * Flips `completed`; the completion date is set to `now` when the task becomes
   * completed and removed when it becomes pending. Whatever the task was before,
   * the result is consistent.
   */
  function Toggle(t: Task, now: Timestamp): (r: Task)
    ensures r.completed == !t.completed
    ensures CompletionConsistent(r)
    ensures r.completed ==> r.completedDate == Some(now)
    ensures r.id == t.id && r.title == t.title && r.detail == t.detail && r.createdDate == t.createdDate
  {
    var done := !t.completed;
    t.(completed := done, completedDate := if done then Some(now) else None)
  }

  /** `tasks.find(t => t.id === id)`, as an index. */
  function FindTask(ts: seq<Task>, id: string): (r: Option<nat>)
    ensures r.Some? ==> r.value < |ts| && ts[r.value].id == id
    ensures r.Some? ==> forall j :: 0 <= j < r.value ==> ts[j].id != id
    ensures r.None? ==> forall j :: 0 <= j < |ts| ==> ts[j].id != id
  {
    FindFirst(ts, (t: Task) => t.id == id)
  }

  /** `toggleTask`: toggles the first task with the given id; an unknown id changes nothing. */
  function ToggleById(ts: seq<Task>, id: string, now: Timestamp): (r: seq<Task>)
    ensures |r| == |ts| && forall j :: 0 <= j < |ts| ==> r[j].id == ts[j].id
    ensures FindTask(ts, id).None? ==> r == ts
    ensures FindTask(ts, id).Some? ==>
              var i := FindTask(ts, id).value;
              r[i] == Toggle(ts[i], now) && forall j :: 0 <= j < |ts| && j != i ==> r[j] == ts[j]
    ensures AllConsistent(ts) ==> AllConsistent(r)
    ensures AllWellDated(ts) && ValidTimestamp(now) ==> AllWellDated(r)
  {
    match FindTask(ts, id)
    case None => ts
    case Some(i) => ts[i := Toggle(ts[i], now)]
  }

  /** Two lists with the same ids, position by position, find the same task for every id. */
  lemma FindTaskSameIds(a: seq<Task>, b: seq<Task>, id: string)
    requires |a| == |b| && forall j :: 0 <= j < |a| ==> a[j].id == b[j].id
    ensures FindTask(a, id) == FindTask(b, id)
  {
  }

  /**
   * Toggling the same id twice gives back the original list, except that a task
   * that was completed carries the second toggle's instant as its completion date.
   */
  lemma ToggleTwice(ts: seq<Task>, id: string, now1: Timestamp, now2: Timestamp)
    requires AllConsistent(ts)
    ensures ToggleById(ToggleById(ts, id, now1), id, now2) ==
            match FindTask(ts, id)
            case None => ts
            case Some(i) => ts[i := ts[i].(completedDate := if ts[i].completed then Some(now2) else None)]
  {
    var once := ToggleById(ts, id, now1);
    FindTaskSameIds(ts, once, id);
    match FindTask(ts, id)
    case None =>
    case Some(i) =>
      assert CompletionConsistent(ts[i]);
  }

  // ----- deleteTask -----

  /** `tasks.filter(t => t.id !== id)`. */
  function RemoveTask(ts: seq<Task>, id: string): (r: seq<Task>)
    ensures |r| <= |ts|
    ensures forall t :: t in r <==> t in ts && t.id != id
    ensures |ts| == 1 ==> r == if ts[0].id != id then ts else []
  {
    var keep := (t: Task) => t.id != id;
    assert |ts| == 1 ==> Filter(ts, keep) == if ts[0].id != id then ts else [] by {
      if |ts| == 1 {
        assert ts == [ts[0]];
        FilterSingle(ts[0], keep);
      }
    }
    Filter(ts, keep)
  }

  /** Deleting keeps the order of the list: it works on each part of it separately. */
  lemma RemoveTaskSplit(a: seq<Task>, b: seq<Task>, id: string)
    ensures RemoveTask(a + b, id) == RemoveTask(a, id) + RemoveTask(b, id)
  {
    FilterAppend(a, b, (t: Task) => t.id != id);
  }

  /**
   * Deleting removes exactly the tasks with the given id: every other task stays, with
   * all its copies, none with that id remains, and the list shrinks by the number of matches.
   */
  lemma RemoveTaskExact(ts: seq<Task>, id: string)
    ensures forall t :: t in RemoveTask(ts, id) <==> t in ts && t.id != id
    ensures |RemoveTask(ts, id)| == |ts| - CountWhere(ts, (t: Task) => t.id == id)
    ensures AllConsistent(ts) ==> AllConsistent(RemoveTask(ts, id))
    ensures AllWellDated(ts) ==> AllWellDated(RemoveTask(ts, id))
    ensures forall t :: multiset(RemoveTask(ts, id))[t] == if t.id != id then multiset(ts)[t] else 0
  {
    var keep := (t: Task) => t.id != id;
    FilterMultiset(ts, keep);
    FilterLength(ts, keep);
    CountComplement(ts, keep, (t: Task) => t.id == id);
    var r := RemoveTask(ts, id);
    forall i | 0 <= i < |r| ensures exists j :: 0 <= j < |ts| && ts[j] == r[i] {
      assert r[i] in ts;
    }
  }

  // ----- focus goals -----

  /** The store's goal invariant: no two goals are active. */
  predicate AtMostOneActive(gs: seq<Goal>) {
    forall i, j :: 0 <= i < j < |gs| && gs[i].active ==> !gs[j].active
  }

  /** `focusGoals.find(goal => goal.active)`: the first active goal. */
  function ActiveGoal(gs: seq<Goal>): (r: Option<Goal>)
    ensures r.Some? ==> r.value in gs && r.value.active
                        && exists i :: 0 <= i < |gs| && gs[i] == r.value && forall j :: 0 <= j < i ==> !gs[j].active
    ensures r.None? ==> forall j :: 0 <= j < |gs| ==> !gs[j].active
  {
    match FindFirst(gs, (g: Goal) => g.active)
    case None => None
    case Some(i) => Some(gs[i])
  }

  /** The goals with every `active` flag cleared. */
  function Deactivated(gs: seq<Goal>): (r: seq<Goal>)
    ensures |r| == |gs| && forall i :: 0 <= i < |gs| ==> r[i] == gs[i].(active := false)
  {
    seq(|gs|, i requires 0 <= i < |gs| => gs[i].(active := false))
  }

  /** The goal list `addGoal` leaves: every earlier goal switched off, then the new goal. */
  function WithNewGoal(gs: seq<Goal>, g: Goal): (r: seq<Goal>)
  {
    Deactivated(gs) + [g]
  }

  /**
   * After `addGoal` with an active new goal, it is the one active goal, it is last,
   * and the earlier goals keep their order and every field but `active`.
   */
  lemma NewGoalIsTheActiveOne(gs: seq<Goal>, g: Goal)
    requires g.active
    ensures var r := WithNewGoal(gs, g);
            |r| == |gs| + 1 && r[|gs|] == g
            && AtMostOneActive(r) && ActiveGoal(r) == Some(g)
            && CountWhere(r, (x: Goal) => x.active) == 1
            && forall i :: 0 <= i < |gs| ==> !r[i].active && r[i].(active := gs[i].active) == gs[i]
  {
    var r := WithNewGoal(gs, g);
    var isActive := (x: Goal) => x.active;
    assert r[..|gs|] == Deactivated(gs);
    NoneCounted(r[..|gs|], isActive);
    CountAppend(r[..|gs|], g, isActive);
    assert r[..|gs|] + [g] == r;
  }

  /** A predicate no element satisfies counts zero. */
  lemma {:induction false} NoneCounted<T>(s: seq<T>, p: T -> bool)
    requires forall i :: 0 <= i < |s| ==> !p(s[i])
    ensures CountWhere(s, p) == 0
  {
    if s != [] {
      NoneCounted(s[..|s| - 1], p);
    }
  }

  /** `focusGoals.filter(g => g.id !== goalId)`. */
  function RemoveGoal(gs: seq<Goal>, id: string): (r: seq<Goal>)
    ensures |r| <= |gs| && !HasGoal(r, id)
    ensures forall g :: g in r <==> g in gs && g.id != id
    ensures |gs| == 1 ==> r == if gs[0].id != id then gs else []
  {
    var keep := (g: Goal) => g.id != id;
    assert |gs| == 1 ==> Filter(gs, keep) == if gs[0].id != id then gs else [] by {
      if |gs| == 1 {
        assert gs == [gs[0]];
        FilterSingle(gs[0], keep);
      }
    }
    var r := Filter(gs, keep);
    assert !HasGoal(r, id) by {
      forall j | 0 <= j < |r| ensures r[j].id != id {
        assert r[j] in r;
      }
    }
    r
  }

  /** Deleting goals keeps every copy of a goal with another id and no copy of one with that id. */
  lemma RemoveGoalMultiset(gs: seq<Goal>, id: string)
    ensures forall g :: multiset(RemoveGoal(gs, id))[g] == if g.id != id then multiset(gs)[g] else 0
  {
    FilterMultiset(gs, (g: Goal) => g.id != id);
  }

  /** Deleting goals keeps the order of the list: it works on each part of it separately. */
  lemma RemoveGoalSplit(a: seq<Goal>, b: seq<Goal>, id: string)
    ensures RemoveGoal(a + b, id) == RemoveGoal(a, id) + RemoveGoal(b, id)
  {
    FilterAppend(a, b, (g: Goal) => g.id != id);
  }

  /** Deleting goals never makes a second goal active; every remaining goal was there before. */
  lemma RemoveGoalKeepsOneActive(gs: seq<Goal>, id: string)
    requires AtMostOneActive(gs)
    ensures AtMostOneActive(RemoveGoal(gs, id))
    ensures forall g :: g in RemoveGoal(gs, id) <==> g in gs && g.id != id
  {
    var isActive := (g: Goal) => g.active;
    assert AtMostOne(gs, isActive);
    FilterKeepsAtMostOne(gs, (g: Goal) => g.id != id, isActive);
    assert AtMostOne(RemoveGoal(gs, id), isActive);
  }

  /** Some goal on the list carries the id. */
  predicate HasGoal(gs: seq<Goal>, id: string) {
    exists j :: 0 <= j < |gs| && gs[j].id == id
  }

  /** `i` is the first position whose goal carries the id, the one `find` returns. */
  predicate FirstWithId(gs: seq<Goal>, id: string, i: int) {
    0 <= i < |gs| && gs[i].id == id && forall j :: 0 <= j < i ==> gs[j].id != id
  }

  /**
   * The fields `updateGoal` writes into the first goal with the given id: that goal takes
   * the five new values, every other goal stays as it was, and an unknown id changes nothing.
   */
  function EditGoal(gs: seq<Goal>, id: string, title: string, sessionCount: int,
                    sessionDuration: int, dailyTarget: int, duration: int): (r: seq<Goal>)
    ensures |r| == |gs| && forall j :: 0 <= j < |gs| ==> r[j].active == gs[j].active && r[j].id == gs[j].id
    ensures !HasGoal(gs, id) ==> r == gs
    ensures forall i :: FirstWithId(gs, id, i) ==>
              r[i].title == title && r[i].sessionCount == sessionCount && r[i].sessionDuration == sessionDuration
              && r[i].dailyTarget == dailyTarget && r[i].duration == duration
              && r[i].startDate == gs[i].startDate && r[i].created == gs[i].created
              && forall j :: 0 <= j < |gs| && j != i ==> r[j] == gs[j]
    ensures AtMostOneActive(gs) ==> AtMostOneActive(r)
  {
    match FindFirst(gs, (g: Goal) => g.id == id)
    case None => gs
    case Some(i) =>
      gs[i := gs[i].(title := title, sessionCount := sessionCount, sessionDuration := sessionDuration,
                     dailyTarget := dailyTarget, duration := duration)]
  }
}

/**
 * The statistics engine: completion counts and percentage, the per-category breakdown,
 * the three-month histogram and month-over-month growth, all computed from the task
 * list and the daily-task list taken together.
 */
module Statistics {
  import opened Wrappers
  import opened Lists
  import opened Numbers
  import opened Dates
  import opened Records

  // ----- counts and percentage -----

  /** `allTasks.filter(task => task.completed).length`. */
  function CompletedCount(all: seq<Task>): (n: nat)
    ensures n <= |all|
  {
    CountWhere(all, (t: Task) => t.completed)
  }

  /**
   * `total > 0 ? Math.round((completed / total) * 100) : 0`: the share of completed
   * tasks as a whole percentage, 0 for an empty store.
   */
  function Percentage(completed: nat, total: nat): (r: int)
    ensures total == 0 ==> r == 0
    ensures completed <= total ==> 0 <= r <= 100
    ensures 0 < total && completed == total ==> r == 100
    ensures completed == 0 ==> r == 0
  {
    if total > 0 then
      RoundDivExact(0, total);
      RoundDivExact(100, total);
      RoundDivMonotone(0, 100 * completed, total);
      assert completed <= total ==> RoundDiv(100 * completed, total) <= 100 by {
        if completed <= total {
          RoundDivMonotone(100 * completed, 100 * total, total);
        }
      }
      RoundDiv(100 * completed, total)
    else 0
  }

  // ----- category breakdown -----

  /** One entry of `categories`: `{ completed, total }` under a category name. */
  datatype CategoryCount = CategoryCount(name: string, completed: nat, total: nat)

  function Names(cats: seq<CategoryCount>): set<string> {
    if cats == [] then {} else {cats[0].name} + Names(cats[1..])
  }

  predicate NamesDistinct(cats: seq<CategoryCount>) {
    forall i, j :: 0 <= i < j < |cats| ==> cats[i].name != cats[j].name
  }

  /** `categories[name]`, if that key exists. */
  function Lookup(cats: seq<CategoryCount>, name: string): (r: Option<CategoryCount>)
    ensures r.Some? ==> r.value in cats && r.value.name == name
    ensures r.None? <==> name !in Names(cats)
    ensures NamesDistinct(cats) && 0 < |cats| && cats[0].name == name ==> r == Some(cats[0])
  {
    if cats == [] then None
    else if cats[0].name == name then Some(cats[0])
    else Lookup(cats[1..], name)
  }

  /**
   * One step of the `forEach`: create the entry for the task's category if it is
   * missing, then count the task in its total and, when completed, in its completed.
   */
  function Bump(cats: seq<CategoryCount>, t: Task): (r: seq<CategoryCount>)
    ensures Names(r) == Names(cats) + {CategoryOf(t)}
  {
    var c, done := CategoryOf(t), if t.completed then 1 else 0;
    if cats == [] then [CategoryCount(c, done, 1)]
    else if cats[0].name == c then
      [cats[0].(completed := cats[0].completed + done, total := cats[0].total + 1)] + cats[1..]
    else
      var r := [cats[0]] + Bump(cats[1..], t);
      assert r[1..] == Bump(cats[1..], t);
      r
  }

  /** The `categories` object, entries in first-seen order. */
  function CategoryTally(all: seq<Task>): seq<CategoryCount>
  {
    if all == [] then [] else Bump(CategoryTally(all[..|all| - 1]), all[|all| - 1])
  }

  /** Number of tasks filed under `name`. */
  function CategoryTotal(all: seq<Task>, name: string): nat {
    CountWhere(all, (t: Task) => CategoryOf(t) == name)
  }

  /** Number of completed tasks filed under `name`. */
  function CategoryCompleted(all: seq<Task>, name: string): nat {
    CountWhere(all, (t: Task) => CategoryOf(t) == name && t.completed)
  }

  /** The loop that builds `categories`. */
  method TallyCategories(all: seq<Task>) returns (cats: seq<CategoryCount>)
    ensures cats == CategoryTally(all)
  {
    cats := [];
    var i := 0;
    while i < |all|
      invariant 0 <= i <= |all|
      invariant cats == CategoryTally(all[..i])
    {
      assert all[..i + 1][..i] == all[..i];
      cats := Bump(cats, all[i]);
      i := i + 1;
    }
    assert all[..|all|] == all;
  }

  /** The entry for `name` after counting one more task under it. */
  function CountOneMore(prev: Option<CategoryCount>, name: string, done: bool): CategoryCount {
    var inc := if done then 1 else 0;
    match prev
    case None => CategoryCount(name, inc, 1)
    case Some(e) => e.(completed := e.completed + inc, total := e.total + 1)
  }

  lemma {:induction false} LookupBump(cats: seq<CategoryCount>, t: Task, name: string)
    ensures Lookup(Bump(cats, t), name) ==
            if name != CategoryOf(t) then Lookup(cats, name)
            else Some(CountOneMore(Lookup(cats, name), name, t.completed))
  {
    var c := CategoryOf(t);
    if cats == [] {
    } else if cats[0].name == c {
      var r := Bump(cats, t);
      assert r[1..] == cats[1..];
    } else {
      LookupBump(cats[1..], t, name);
      var r := Bump(cats, t);
      assert r[0] == cats[0] && r[1..] == Bump(cats[1..], t);
    }
  }

  /**
   * The breakdown has an entry for a name exactly when some task falls under it, and
   * that entry counts precisely those tasks and the completed ones among them.
   */
  lemma {:induction false} TallyLookup(all: seq<Task>, name: string)
    ensures Lookup(CategoryTally(all), name) ==
            if CategoryTotal(all, name) == 0 then None
            else Some(CategoryCount(name, CategoryCompleted(all, name), CategoryTotal(all, name)))
  {
    if all != [] {
      var init, last := all[..|all| - 1], all[|all| - 1];
      var prev := CategoryTally(init);
      TallyLookup(init, name);
      assert CategoryTally(all) == Bump(prev, last);
      LookupBump(prev, last, name);
      var tot0, comp0 := CategoryTotal(init, name), CategoryCompleted(init, name);
      var tot, comp := CategoryTotal(all, name), CategoryCompleted(all, name);
      CategoryCountsStep(all, name);
      CountMonotone(init, (t: Task) => CategoryOf(t) == name && t.completed, (t: Task) => CategoryOf(t) == name);
      assert comp0 <= tot0;
      if CategoryOf(last) != name {
        assert tot == tot0 && comp == comp0;
      } else if tot0 == 0 {
        assert Lookup(prev, name) == None;
      } else {
        assert Lookup(prev, name) == Some(CategoryCount(name, comp0, tot0));
        assert tot == tot0 + 1;
        assert comp == comp0 + (if last.completed then 1 else 0);
        assert CountOneMore(Lookup(prev, name), name, last.completed) == CategoryCount(name, comp, tot);
      }
    }
  }

  lemma CategoryCountsStep(all: seq<Task>, name: string)
    requires all != []
    ensures var init, last := all[..|all| - 1], all[|all| - 1];
      && CategoryTotal(all, name) == CategoryTotal(init, name) + (if CategoryOf(last) == name then 1 else 0)
      && CategoryCompleted(all, name)
         == CategoryCompleted(init, name) + (if CategoryOf(last) == name && last.completed then 1 else 0)
  {
  }

  /** Within every category, no more tasks are completed than exist. */
  lemma CategoryCompletedAtMostTotal(all: seq<Task>, name: string)
    ensures 0 < CategoryTotal(all, name) ==> CategoryCompleted(all, name) <= CategoryTotal(all, name)
    ensures Lookup(CategoryTally(all), name).Some? ==>
              var e := Lookup(CategoryTally(all), name).value;
              1 <= e.total && e.completed <= e.total
  {
    TallyLookup(all, name);
    CountMonotone(all, (t: Task) => CategoryOf(t) == name && t.completed, (t: Task) => CategoryOf(t) == name);
  }

  /** A missing or empty category is counted under 'Personal'. */
  lemma {:induction false} MissingCategoryIsPersonal(all: seq<Task>)
    requires forall i :: 0 <= i < |all| ==> all[i].detail.Daily? || all[i].detail.category == ""
    ensures all != [] ==> CategoryTally(all) == [CategoryCount(DefaultCategory, CompletedCount(all), |all|)]
  {
    if all != [] {
      var init := all[..|all| - 1];
      MissingCategoryIsPersonal(init);
      assert CategoryOf(all[|all| - 1]) == DefaultCategory;
    }
  }

  /** The names in the breakdown are the categories of the tasks. */
  lemma {:induction false} TallyNames(all: seq<Task>)
    ensures Names(CategoryTally(all)) == set t | t in all :: CategoryOf(t)
  {
    if all != [] {
      TallyNames(all[..|all| - 1]);
      assert forall t :: t in all <==> t in all[..|all| - 1] || t == all[|all| - 1];
    }
  }

  /** Like the keys of an object, the names in the breakdown are distinct. */
  lemma {:induction false} TallyDistinct(all: seq<Task>)
    ensures NamesDistinct(CategoryTally(all))
  {
    if all != [] {
      TallyDistinct(all[..|all| - 1]);
      BumpDistinct(CategoryTally(all[..|all| - 1]), all[|all| - 1]);
    }
  }

  /** The breakdown has one entry per distinct category of the tasks. */
  lemma TallyLength(all: seq<Task>)
    ensures |CategoryTally(all)| == |set t | t in all :: CategoryOf(t)|
  {
    TallyNames(all);
    TallyDistinct(all);
    DistinctNamesCount(CategoryTally(all));
  }

  lemma {:induction false} BumpDistinct(cats: seq<CategoryCount>, t: Task)
    requires NamesDistinct(cats)
    ensures NamesDistinct(Bump(cats, t))
  {
    if cats != [] && cats[0].name != CategoryOf(t) {
      BumpDistinct(cats[1..], t);
      var rest := Bump(cats[1..], t);
      NameAt(cats[1..], cats[0].name);
      NameAt(rest, cats[0].name);
      assert Bump(cats, t) == [cats[0]] + rest;
    }
  }

  /** With distinct names, there are as many names as entries. */
  lemma {:induction false} DistinctNamesCount(cats: seq<CategoryCount>)
    requires NamesDistinct(cats)
    ensures |Names(cats)| == |cats|
  {
    if cats != [] {
      DistinctNamesCount(cats[1..]);
      assert cats[0].name !in Names(cats[1..]) by {
        NameAt(cats[1..], cats[0].name);
      }
    }
  }

  /** A name in the list is the name of one of its entries. */
  lemma {:induction false} NameAt(cats: seq<CategoryCount>, name: string)
    ensures name in Names(cats) <==> exists k :: 0 <= k < |cats| && cats[k].name == name
  {
    if cats != [] {
      NameAt(cats[1..], name);
      assert forall k :: 0 <= k < |cats[1..]| ==> cats[1..][k] == cats[k + 1];
    }
  }

  function SumTotals(cats: seq<CategoryCount>): nat {
    if cats == [] then 0 else cats[0].total + SumTotals(cats[1..])
  }

  function SumCompleted(cats: seq<CategoryCount>): nat {
    if cats == [] then 0 else cats[0].completed + SumCompleted(cats[1..])
  }

  lemma {:induction false} SumBump(cats: seq<CategoryCount>, t: Task)
    ensures SumTotals(Bump(cats, t)) == SumTotals(cats) + 1
    ensures SumCompleted(Bump(cats, t)) == SumCompleted(cats) + (if t.completed then 1 else 0)
  {
    if cats != [] && cats[0].name != CategoryOf(t) {
      SumBump(cats[1..], t);
      assert Bump(cats, t)[1..] == Bump(cats[1..], t);
    } else if cats != [] {
      assert Bump(cats, t)[1..] == cats[1..];
    }
  }

  /** The per-category totals add up to the number of tasks, the completed counts to the completed tasks. */
  lemma {:induction false} TallySums(all: seq<Task>)
    ensures SumTotals(CategoryTally(all)) == |all|
    ensures SumCompleted(CategoryTally(all)) == CompletedCount(all)
  {
    if all != [] {
      TallySums(all[..|all| - 1]);
      SumBump(CategoryTally(all[..|all| - 1]), all[|all| - 1]);
    }
  }

  // ----- three-month histogram -----

  const MonthNames: seq<string> :=
    ["Jan", "Feb", "Mar", "Apr", "May", "Jun", "Jul", "Aug", "Sep", "Oct", "Nov", "Dec"]

  /** Different months have different short names. */
  lemma MonthNamesDistinct(a: int, b: int)
    requires 0 <= a < 12 && 0 <= b < 12
    ensures MonthNames[a] == MonthNames[b] <==> a == b
  {
  }

  /** One key of `monthlyData`: a month's short name and its count. */
  datatype MonthBucket = MonthBucket(name: string, count: nat)

  /**
   * Month (0..11) of bucket `k`: bucket 0 is two months ago, bucket 2 the month of `now`
   * (`new Date(y, m - i, 1).getMonth()` with `i = 2 - k`).
   */
  function BucketMonth(now: Timestamp, k: int): (m: int)
    requires 0 <= now.month < 12 && 0 <= k < 3
    ensures 0 <= m < 12
    ensures k == 2 ==> m == now.month
  {
    var m := now.month - 2 + k;
    if m < 0 then m + 12 else m
  }

  /** The three buckets are three different months. */
  lemma BucketMonthsDistinct(now: Timestamp, j: int, k: int)
    requires 0 <= now.month < 12 && 0 <= j < k < 3
    ensures BucketMonth(now, j) != BucketMonth(now, k)
  {
  }

  /** Completed, dated, and the completion date's `getMonth()` is `m`, whatever its year. */
  predicate CompletedInMonth(t: Task, m: int) {
    t.completed && t.completedDate.Some? && t.completedDate.value.month == m
  }

  function MonthCount(all: seq<Task>, m: int): nat {
    CountWhere(all, (t: Task) => CompletedInMonth(t, m))
  }

  function Bucket(all: seq<Task>, now: Timestamp, k: int): MonthBucket
    requires 0 <= now.month < 12 && 0 <= k < 3
  {
    MonthBucket(MonthNames[BucketMonth(now, k)], MonthCount(all, BucketMonth(now, k)))
  }

  /**
   * `calculateMonthlyData()`: the three most recent months, oldest first, each with the
   * number of completed tasks whose completion month carries its name.
   */
  function MonthlyHistogram(all: seq<Task>, now: Timestamp): (r: seq<MonthBucket>)
    requires 0 <= now.month < 12
    ensures |r| == 3 && r[2].name == MonthNames[now.month]
    ensures forall j, k :: 0 <= j < k < 3 ==> r[j].name != r[k].name
  {
    forall j, k | 0 <= j < k < 3 ensures MonthNames[BucketMonth(now, j)] != MonthNames[BucketMonth(now, k)] {
      BucketMonthsDistinct(now, j, k);
      MonthNamesDistinct(BucketMonth(now, j), BucketMonth(now, k));
    }
    [Bucket(all, now, 0), Bucket(all, now, 1), Bucket(all, now, 2)]
  }

  /** Counting one more task in the bucket of its completion month. */
  lemma MonthCountStep(all: seq<Task>, j: nat, m: int)
    requires j < |all|
    ensures MonthCount(all[..j + 1], m) == MonthCount(all[..j], m) + (if CompletedInMonth(all[j], m) then 1 else 0)
  {
    assert all[..j + 1][..j] == all[..j];
  }

  /** A completed task's month name is a bucket's name exactly when the task counts in that bucket. */
  lemma BucketNames(t: Task, now: Timestamp)
    requires 0 <= now.month < 12 && t.completed && t.completedDate.Some? && 0 <= t.completedDate.value.month < 12
    ensures forall k :: 0 <= k < 3 ==>
              (MonthNames[BucketMonth(now, k)] == MonthNames[t.completedDate.value.month]
               <==> CompletedInMonth(t, BucketMonth(now, k)))
  {
    forall k | 0 <= k < 3
      ensures MonthNames[BucketMonth(now, k)] == MonthNames[t.completedDate.value.month]
              <==> CompletedInMonth(t, BucketMonth(now, k))
    {
      MonthNamesDistinct(t.completedDate.value.month, BucketMonth(now, k));
    }
  }

  /** Each bucket's count grows by one exactly when the next task counts in it. */
  lemma BucketsStep(all: seq<Task>, j: nat, now: Timestamp)
    requires j < |all| && 0 <= now.month < 12
    ensures forall k :: 0 <= k < 3 ==>
              Bucket(all[..j + 1], now, k).count
              == Bucket(all[..j], now, k).count + (if CompletedInMonth(all[j], BucketMonth(now, k)) then 1 else 0)
  {
    forall k | 0 <= k < 3 {
      MonthCountStep(all, j, BucketMonth(now, k));
    }
  }

  /** The first loop of `calculateMonthlyData`: one empty bucket per month, oldest first. */
  method MonthKeys(now: Timestamp) returns (data: seq<MonthBucket>)
    requires 0 <= now.month < 12
    ensures |data| == 3 && forall k :: 0 <= k < 3 ==> data[k] == Bucket([], now, k)
  {
    data := [];
    var i := 2;
    while i >= 0
      invariant -1 <= i <= 2 && |data| == 2 - i
      invariant forall k :: 0 <= k < |data| ==> data[k] == MonthBucket(MonthNames[BucketMonth(now, k)], 0)
    {
      assert (now.month - i) % 12 == BucketMonth(now, 2 - i);
      data := data + [MonthBucket(MonthNames[(now.month - i) % 12], 0)];
      i := i - 1;
    }
  }

  /** One pass of the second loop: the task is counted under the bucket named after its month. */
  method CountTask(data: seq<MonthBucket>, t: Task, ghost prefix: seq<Task>, now: Timestamp) returns (r: seq<MonthBucket>)
    requires 0 <= now.month < 12 && WellDated(t)
    requires |data| == 3 && forall k :: 0 <= k < 3 ==> data[k] == Bucket(prefix, now, k)
    ensures |r| == 3 && forall k :: 0 <= k < 3 ==> r[k] == Bucket(prefix + [t], now, k)
  {
    var all := prefix + [t];
    assert all[..|prefix| + 1] == all && all[..|prefix|] == prefix;
    BucketsStep(all, |prefix|, now);
    r := data;
    if t.completed && t.completedDate.Some? {
      var name := MonthNames[t.completedDate.value.month];
      var found := FindFirst(data, (b: MonthBucket) => b.name == name);
      BucketNames(t, now);
      if found.Some? {
        var k := found.value;
        r := data[k := data[k].(count := data[k].count + 1)];
      }
    }
  }

  /** The two loops of `calculateMonthlyData`: create the three keys, then count by month name. */
  method CalculateMonthlyData(all: seq<Task>, now: Timestamp) returns (data: seq<MonthBucket>)
    requires 0 <= now.month < 12
    requires AllWellDated(all)
    ensures data == MonthlyHistogram(all, now)
  {
    data := MonthKeys(now);
    var j := 0;
    while j < |all|
      invariant 0 <= j <= |all| && |data| == 3
      invariant forall k :: 0 <= k < 3 ==> data[k] == Bucket(all[..j], now, k)
    {
      assert all[..j + 1] == all[..j] + [all[j]];
      data := CountTask(data, all[j], all[..j], now);
      j := j + 1;
    }
    assert all[..|all|] == all;
  }

  /**
   * Only the month of a completion date matters, not its year: two lists that agree,
   * task by task, on completion and completion month have the same histogram, so a
   * task finished in the same month a year earlier is counted as if it were recent.
   */
  lemma MonthlyIgnoresYear(a: seq<Task>, b: seq<Task>, now: Timestamp)
    requires 0 <= now.month < 12
    requires |a| == |b|
    requires forall i :: 0 <= i < |a| ==>
               a[i].completed == b[i].completed && a[i].completedDate.Some? == b[i].completedDate.Some? &&
               (a[i].completedDate.Some? ==> a[i].completedDate.value.month == b[i].completedDate.value.month)
    ensures MonthlyHistogram(a, now) == MonthlyHistogram(b, now)
  {
    forall k | 0 <= k < 3 ensures MonthCount(a, BucketMonth(now, k)) == MonthCount(b, BucketMonth(now, k)) {
      var m := BucketMonth(now, k);
      CountPointwise(a, b, (t: Task) => CompletedInMonth(t, m));
    }
  }

  /** A completion is counted in at most one bucket, so the histogram never exceeds the completed tasks. */
  lemma MonthlyTotalBound(all: seq<Task>, now: Timestamp)
    requires 0 <= now.month < 12
    ensures var r := MonthlyHistogram(all, now); r[0].count + r[1].count + r[2].count <= CompletedCount(all)
  {
    var m0, m1, m2 := BucketMonth(now, 0), BucketMonth(now, 1), BucketMonth(now, 2);
    var p0 := (t: Task) => CompletedInMonth(t, m0);
    var p1 := (t: Task) => CompletedInMonth(t, m1);
    var p2 := (t: Task) => CompletedInMonth(t, m2);
    var p01 := (t: Task) => CompletedInMonth(t, m0) || CompletedInMonth(t, m1);
    var p012 := (t: Task) => CompletedInMonth(t, m0) || CompletedInMonth(t, m1) || CompletedInMonth(t, m2);
    CountDisjoint(all, p0, p1, p01);
    CountDisjoint(all, p01, p2, p012);
    CountMonotone(all, p012, (t: Task) => t.completed);
  }

  // ----- month-over-month growth -----

  /** `taskDate >= currentMonthStart`. */
  predicate InCurrentMonth(d: Timestamp, now: Timestamp) {
    EpochMillis(d) >= EpochMillis(MonthStart(now.year, now.month))
  }

  /**
   * The last-month window as written: from `new Date(y, m - 1, 1)` up to and including
   * `new Date(y, m, 0)`, which is midnight at the START of the last day of that month.
   */
  predicate InLastMonthAsWritten(d: Timestamp, now: Timestamp)
    requires 0 <= now.month < 12
  {
    var (py, pm) := PreviousMonth(now.year, now.month);
    !InCurrentMonth(d, now) &&
    EpochMillis(MonthStart(py, pm)) <= EpochMillis(d) <= EpochMillis(Timestamp(py, pm, DaysInMonth(py, pm), 0))
  }

  /** The last-month window as intended: from the start of last month up to the start of this one. */
  predicate InLastMonth(d: Timestamp, now: Timestamp)
    requires 0 <= now.month < 12
  {
    var (py, pm) := PreviousMonth(now.year, now.month);
    !InCurrentMonth(d, now) && EpochMillis(MonthStart(py, pm)) <= EpochMillis(d)
  }

  /** A real date is in the current-month window exactly when its month is this month or later. */
  lemma CurrentMonthWindow(d: Timestamp, now: Timestamp)
    requires ValidTimestamp(d) && 0 <= now.month < 12
    ensures InCurrentMonth(d, now) <==> MonthIndex(d.year, d.month) >= MonthIndex(now.year, now.month)
  {
    AtOrAfterMonthStart(d, now.year, now.month);
  }

  /** A real date is in the corrected last-month window exactly when it falls in the previous calendar month. */
  lemma LastMonthWindow(d: Timestamp, now: Timestamp)
    requires ValidTimestamp(d) && 0 <= now.month < 12
    ensures InLastMonth(d, now) <==> (d.year, d.month) == PreviousMonth(now.year, now.month)
  {
    var (py, pm) := PreviousMonth(now.year, now.month);
    assert MonthIndex(py, pm) == MonthIndex(now.year, now.month) - 1;
    AtOrAfterMonthStart(d, now.year, now.month);
    AtOrAfterMonthStart(d, py, pm);
    MonthIndexInjective(d.year, d.month, py, pm);
  }

  /** The window as written is part of the previous month, but misses the last day after midnight. */
  lemma LastMonthWindowAsWritten(d: Timestamp, now: Timestamp)
    requires ValidTimestamp(now)
    ensures InLastMonthAsWritten(d, now) ==> InLastMonth(d, now)
    ensures var (py, pm) := PreviousMonth(now.year, now.month);
            var late := Timestamp(py, pm, DaysInMonth(py, pm), d.ms);
            0 < d.ms < MsPerDay ==>
              ValidTimestamp(late) && InLastMonth(late, now) && !InLastMonthAsWritten(late, now)
  {
    var (py, pm) := PreviousMonth(now.year, now.month);
    var late := Timestamp(py, pm, DaysInMonth(py, pm), d.ms);
    if 0 < d.ms < MsPerDay {
      LastMonthWindow(late, now);
      assert DayNumber(late) == DayNumber(Timestamp(py, pm, DaysInMonth(py, pm), 0));
    }
  }

  predicate CompletedThisMonth(t: Task, now: Timestamp) {
    t.completed && t.completedDate.Some? && InCurrentMonth(t.completedDate.value, now)
  }

  predicate CompletedLastMonth(t: Task, now: Timestamp)
    requires 0 <= now.month < 12
  {
    t.completed && t.completedDate.Some? && InLastMonth(t.completedDate.value, now)
  }

  predicate CompletedLastMonthAsWritten(t: Task, now: Timestamp)
    requires 0 <= now.month < 12
  {
    t.completed && t.completedDate.Some? && InLastMonthAsWritten(t.completedDate.value, now)
  }

  function CurrentMonthCount(all: seq<Task>, now: Timestamp): nat {
    CountWhere(all, (t: Task) => CompletedThisMonth(t, now))
  }

  function LastMonthCount(all: seq<Task>, now: Timestamp): nat
    requires 0 <= now.month < 12
  {
    CountWhere(all, (t: Task) => CompletedLastMonth(t, now))
  }

  function LastMonthCountAsWritten(all: seq<Task>, now: Timestamp): nat
    requires 0 <= now.month < 12
  {
    CountWhere(all, (t: Task) => CompletedLastMonthAsWritten(t, now))
  }

  /**
   * Growth from last month's count to this month's, in whole percent: relative change
   * rounded like `Math.round`, 100 when only this month has completions, 0 when neither has.
   */
  function GrowthPercentage(current: nat, last: nat): (r: int)
    ensures last == 0 ==> r == (if current > 0 then 100 else 0)
    ensures r >= -100
    ensures last > 0 ==> (r >= 0 <==> 200 * current >= 199 * last)
    ensures last > 0 && current == 0 ==> r == -100
    ensures last > 0 && current == last ==> r == 0
    ensures last > 0 && current == 2 * last ==> r == 100
  {
    if last > 0 then
      RoundDivAtLeast(100 * (current - last), last, 0);
      RoundDivExact(-100, last);
      RoundDivExact(0, last);
      RoundDivExact(100, last);
      RoundDivMonotone(-100 * last, 100 * (current - last), last);
      RoundDiv(100 * (current - last), last)
    else if current > 0 then 100
    else 0
  }

  /** The object `calculateGrowthMetrics` returns. */
  datatype GrowthMetrics = GrowthMetrics(currentMonthCompleted: nat, lastMonthCompleted: nat,
                                         growthPercentage: int, isPositiveGrowth: bool)

  /** `calculateGrowthMetrics()`: one pass over the tasks with two counters, then the percentage. */
  method CalculateGrowthMetrics(all: seq<Task>, now: Timestamp) returns (g: GrowthMetrics)
    requires 0 <= now.month < 12
    ensures g.currentMonthCompleted == CurrentMonthCount(all, now)
    ensures g.lastMonthCompleted == LastMonthCount(all, now)
    ensures g.growthPercentage == GrowthPercentage(g.currentMonthCompleted, g.lastMonthCompleted)
    ensures g.isPositiveGrowth <==> g.growthPercentage >= 0
  {
    var current, last := 0, 0;
    var i := 0;
    while i < |all|
      invariant 0 <= i <= |all|
      invariant current == CurrentMonthCount(all[..i], now)
      invariant last == LastMonthCount(all[..i], now)
    {
      assert all[..i + 1][..i] == all[..i];
      var t := all[i];
      if t.completed && t.completedDate.Some? {
        if InCurrentMonth(t.completedDate.value, now) {
          current := current + 1;
        } else if InLastMonth(t.completedDate.value, now) {
          last := last + 1;
        }
      }
      i := i + 1;
    }
    assert all[..|all|] == all;
    var growth := GrowthPercentage(current, last);
    g := GrowthMetrics(current, last, growth, growth >= 0);
  }

  /** No completion is counted in both months, so the two counts add up to at most the completed tasks. */
  lemma GrowthCountsBound(all: seq<Task>, now: Timestamp)
    requires 0 <= now.month < 12
    ensures CurrentMonthCount(all, now) + LastMonthCount(all, now) <= CompletedCount(all)
  {
    var either := (t: Task) => CompletedThisMonth(t, now) || CompletedLastMonth(t, now);
    CountDisjoint(all, (t: Task) => CompletedThisMonth(t, now), (t: Task) => CompletedLastMonth(t, now), either);
    CountMonotone(all, either, (t: Task) => t.completed);
  }

  /** With real dates, last month's count is the number of tasks completed in the previous calendar month. */
  lemma LastMonthCountIsCalendarMonth(all: seq<Task>, now: Timestamp)
    requires 0 <= now.month < 12 && AllWellDated(all)
    ensures LastMonthCount(all, now) ==
            CountWhere(all, (t: Task) => t.completed && t.completedDate.Some? &&
                                         (t.completedDate.value.year, t.completedDate.value.month)
                                         == PreviousMonth(now.year, now.month))
  {
    forall i | 0 <= i < |all| && all[i].completedDate.Some?
      ensures InLastMonth(all[i].completedDate.value, now) <==>
              (all[i].completedDate.value.year, all[i].completedDate.value.month) == PreviousMonth(now.year, now.month)
    {
      assert WellDated(all[i]);
      LastMonthWindow(all[i].completedDate.value, now);
    }
    CountCongruent(all, (t: Task) => CompletedLastMonth(t, now),
                   (t: Task) => t.completed && t.completedDate.Some? &&
                                (t.completedDate.value.year, t.completedDate.value.month)
                                == PreviousMonth(now.year, now.month));
  }

  /** The window as written never counts more than the calendar month, and can count less. */
  lemma AsWrittenUndercounts(all: seq<Task>, now: Timestamp)
    requires ValidTimestamp(now)
    ensures LastMonthCountAsWritten(all, now) <= LastMonthCount(all, now)
  {
    forall t: Task | CompletedLastMonthAsWritten(t, now) ensures CompletedLastMonth(t, now) {
      LastMonthWindowAsWritten(t.completedDate.value, now);
    }
    CountMonotone(all, (t: Task) => CompletedLastMonthAsWritten(t, now), (t: Task) => CompletedLastMonth(t, now));
  }

  /**
   * On 15 October 2026, a task completed at noon on 30 September 2026 is counted in
   * neither month by the window as written, and in last month by the corrected one.
   */
  lemma LastDayOfMonthIsMissed()
    ensures var now := Timestamp(2026, 9, 15, 36000000);
            var t := Task("1", "report", General("Work"), true, Timestamp(2026, 8, 1, 0),
                          Some(Timestamp(2026, 8, 30, 43200000)));
            && CurrentMonthCount([t], now) == 0
            && LastMonthCountAsWritten([t], now) == 0
            && LastMonthCount([t], now) == 1
  {
    var now := Timestamp(2026, 9, 15, 36000000);
    var d := Timestamp(2026, 8, 30, 43200000);
    LastMonthWindowAsWritten(d, now);
  }
}

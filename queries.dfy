/** The side-effect-free half of app/Services/TaskService.php: the date
    queries with their ORDER BY clauses, and the statistics. Each query reads
    the tasks table of a TaskTable (its `tasks` map). */
module TaskQueries {
  import opened Wrappers
  import opened Calendar
  import opened TaskModel

  lemma MaxExists(keys: set<nat>)
    requires keys != {}
    ensures exists m :: m in keys && forall k :: k in keys ==> k <= m
    decreases |keys|
  {
    var x :| x in keys;
    var rest := keys - {x};
    var top := x;
    if rest != {} {
      MaxExists(rest);
      var m :| m in rest && forall k :: k in rest ==> k <= m;
      top := if x > m then x else m;
    }
    assert forall k :: k in rest ==> k <= top;
    assert forall k :: k in keys ==> k == x || k in rest;
  }

  /** The largest key. */
  function MaxKey(keys: set<nat>): (m: nat)
    requires keys != {}
    ensures m in keys && forall k :: k in keys ==> k <= m
  {
    MaxExists(keys);
    var m :| m in keys && forall k :: k in keys ==> k <= m;
    m
  }

  predicate Ascending(ks: seq<nat>) {
    forall i, j :: 0 <= i < j < |ks| ==> ks[i] < ks[j]
  }

  /** The head of an ascending sequence is its least element. */
  lemma AscendingHeadMin(a: seq<nat>)
    requires Ascending(a) && |a| > 0
    ensures forall k :: k in a ==> a[0] <= k
  {
    forall k | k in a ensures a[0] <= k {
      var i :| 0 <= i < |a| && a[i] == k;
      assert i == 0 || a[0] < a[i];
    }
  }

  /** Two ascending sequences with the same elements are equal. */
  lemma {:induction false} AscendingUnique(a: seq<nat>, b: seq<nat>)
    requires Ascending(a) && Ascending(b)
    requires forall k :: k in a <==> k in b
    ensures a == b
    decreases |a|
  {
    assert |a| > 0 ==> a[0] in a;
    assert |b| > 0 ==> b[0] in b;
    if |a| > 0 && |b| > 0 {
      AscendingHeadMin(a);
      AscendingHeadMin(b);
      assert a[0] == b[0];
      forall k ensures k in a[1..] <==> k in b[1..] {
        if k in a[1..] {
          var m :| 0 <= m < |a[1..]| && a[1..][m] == k;
          assert a[m + 1] == k && a[0] < k;
          assert k in b;
        }
        if k in b[1..] {
          var m :| 0 <= m < |b[1..]| && b[1..][m] == k;
          assert b[m + 1] == k && b[0] < k;
          assert k in a;
        }
      }
      AscendingUnique(a[1..], b[1..]);
      assert a == [a[0]] + a[1..] && b == [b[0]] + b[1..];
    }
  }

  /** The keys in ascending order: the order in which the table's rows are
      scanned. */
  function SortedKeys(keys: set<nat>): (r: seq<nat>)
    ensures forall k :: k in r <==> k in keys
    ensures Ascending(r)
    ensures |r| == |keys|
    decreases |keys|
  {
    if keys == {} then []
    else
      var m := MaxKey(keys);
      var rest := SortedKeys(keys - {m});
      assert forall i :: 0 <= i < |rest| ==> rest[i] in keys - {m};
      AscendingSnoc(rest, m);
      assert |keys - {m}| == |keys| - 1;
      rest + [m]
  }

  /** Appending a key above all the others keeps the order ascending. */
  lemma AscendingSnoc(ks: seq<nat>, m: nat)
    requires Ascending(ks)
    requires forall i :: 0 <= i < |ks| ==> ks[i] < m
    ensures Ascending(ks + [m])
  {
    var r := ks + [m];
    forall i, j | 0 <= i < j < |r| ensures r[i] < r[j] {
      assert r[i] == ks[i];
    }
  }

  /** The rows under `keys`, in that order, that satisfy `p`. */
  function Keep(keys: seq<nat>, tasks: map<TaskId, Task>, p: Task -> bool): (r: seq<Task>)
    requires forall k :: k in keys ==> k in tasks
    ensures forall t :: t in r ==> p(t) && t in tasks.Values
    ensures forall k :: k in keys && p(tasks[k]) ==> tasks[k] in r
    ensures |r| <= |keys|
  {
    if |keys| == 0 then []
    else
      var t := tasks[keys[0]];
      (if p(t) then [t] else []) + Keep(keys[1..], tasks, p)
  }

  /** The rows under `ks`, in that order. */
  function Rows(tasks: map<TaskId, Task>, ks: seq<nat>): (r: seq<Task>)
    requires forall k :: k in ks ==> k in tasks
    ensures |r| == |ks| && forall i :: 0 <= i < |ks| ==> r[i] == tasks[ks[i]]
  {
    seq(|ks|, i requires 0 <= i < |ks| => tasks[ks[i]])
  }

  /** The keys whose rows satisfy `p`. */
  function Matching(tasks: map<TaskId, Task>, p: Task -> bool): set<nat> {
    set k | k in tasks && p(tasks[k])
  }

  /** The keys under `keys`, in that order, whose rows satisfy `p`. */
  function KeepKeys(keys: seq<nat>, tasks: map<TaskId, Task>, p: Task -> bool): (r: seq<nat>)
    requires forall k :: k in keys ==> k in tasks
    ensures forall k :: k in r <==> k in keys && p(tasks[k])
  {
    if |keys| == 0 then []
    else (if p(tasks[keys[0]]) then [keys[0]] else []) + KeepKeys(keys[1..], tasks, p)
  }

  /** Keep reads the rows of the kept keys. */
  lemma {:induction false} KeepIsRows(keys: seq<nat>, tasks: map<TaskId, Task>, p: Task -> bool)
    requires forall k :: k in keys ==> k in tasks
    ensures Keep(keys, tasks, p) == Rows(tasks, KeepKeys(keys, tasks, p))
  {
    if |keys| > 0 {
      KeepIsRows(keys[1..], tasks, p);
    }
  }

  /** Keeping keys preserves ascending order. */
  lemma {:induction false} KeepKeysAscending(keys: seq<nat>, tasks: map<TaskId, Task>, p: Task -> bool)
    requires forall k :: k in keys ==> k in tasks
    requires Ascending(keys)
    ensures Ascending(KeepKeys(keys, tasks, p))
  {
    if |keys| > 0 {
      assert Ascending(keys[1..]);
      KeepKeysAscending(keys[1..], tasks, p);
      var rest := KeepKeys(keys[1..], tasks, p);
      if p(tasks[keys[0]]) {
        forall k | k in rest ensures keys[0] < k {
          var m :| 0 <= m < |keys[1..]| && keys[1..][m] == k;
          assert keys[m + 1] == k;
        }
        var r := [keys[0]] + rest;
        forall i, j | 0 <= i < j < |r| ensures r[i] < r[j] {
          assert r[j] == rest[j - 1] && rest[j - 1] in rest;
          if i > 0 { assert r[i] == rest[i - 1]; }
        }
      }
    }
  }

  /** The rows of the table that satisfy `p`, in key order: one row for each
      matching key, read in ascending key order. */
  function Select(tasks: map<TaskId, Task>, p: Task -> bool): (r: seq<Task>)
    ensures forall t :: t in r <==> t in tasks.Values && p(t)
    ensures r == Rows(tasks, SortedKeys(Matching(tasks, p)))
    ensures |r| == |Matching(tasks, p)|
  {
    var scan := SortedKeys(tasks.Keys);
    KeepIsRows(scan, tasks, p);
    KeepKeysAscending(scan, tasks, p);
    AscendingUnique(KeepKeys(scan, tasks, p), SortedKeys(Matching(tasks, p)));
    Keep(scan, tasks, p)
  }

  /** The rows that satisfy `p` split into the done ones and the pending ones. */
  lemma {:induction false} KeepSplit(keys: seq<nat>, tasks: map<TaskId, Task>,
                                     p: Task -> bool, done: Task -> bool, pending: Task -> bool)
    requires forall k :: k in keys ==> k in tasks
    requires forall t :: done(t) == (p(t) && t.isDone) && pending(t) == (p(t) && !t.isDone)
    ensures |Keep(keys, tasks, p)| == |Keep(keys, tasks, done)| + |Keep(keys, tasks, pending)|
  {
    if |keys| > 0 {
      KeepSplit(keys[1..], tasks, p, done, pending);
    }
  }

  // ---- ORDER BY ---------------------------------------------------------------

  /** The two orderings the queries use. */
  datatype Order =
    | PriorityDescNewestFirst  // orderBy('priority', 'desc')->orderBy('created_at', 'desc')
    | DateAscending            // orderBy('task_date', 'asc')

  /** `a` may come before `b`. */
  predicate Precedes(o: Order, a: Task, b: Task) {
    match o
    case PriorityDescNewestFirst =>
      a.priority > b.priority || (a.priority == b.priority && a.createdAt >= b.createdAt)
    case DateAscending => OnOrBefore(a.taskDate, b.taskDate)
  }

  predicate SortedBy(o: Order, s: seq<Task>) {
    forall i, j :: 0 <= i < j < |s| ==> Precedes(o, s[i], s[j])
  }

  lemma PrecedesTotal(o: Order, a: Task, b: Task)
    ensures Precedes(o, a, b) || Precedes(o, b, a)
  {
  }

  lemma PrecedesTransitive(o: Order, a: Task, b: Task, c: Task)
    requires Precedes(o, a, b) && Precedes(o, b, c)
    ensures Precedes(o, a, c)
  {
  }

  lemma SortedCons(o: Order, h: Task, t: seq<Task>)
    requires SortedBy(o, t)
    requires forall j :: 0 <= j < |t| ==> Precedes(o, h, t[j])
    ensures SortedBy(o, [h] + t)
  {
    var r := [h] + t;
    forall i, j | 0 <= i < j < |r| ensures Precedes(o, r[i], r[j]) {
      assert r[j] == t[j - 1];
      if i > 0 {
        assert r[i] == t[i - 1];
      }
    }
  }

  /** An element that may precede the head of a sorted sequence may precede all of it. */
  lemma PrecedesAll(o: Order, x: Task, s: seq<Task>)
    requires SortedBy(o, s) && |s| > 0 && Precedes(o, x, s[0])
    ensures forall j :: 0 <= j < |s| ==> Precedes(o, x, s[j])
  {
    forall j | 0 < j < |s| ensures Precedes(o, x, s[j]) {
      PrecedesTransitive(o, x, s[0], s[j]);
    }
  }

  /** The head of a sorted sequence may precede the insertion into its tail. */
  lemma BehindHead(o: Order, s: seq<Task>, x: Task, rest: seq<Task>)
    requires |s| > 0 && SortedBy(o, s) && Precedes(o, s[0], x)
    requires SortedBy(o, rest) && multiset(rest) == multiset(s[1..]) + multiset{x}
    ensures SortedBy(o, [s[0]] + rest)
    ensures multiset([s[0]] + rest) == multiset(s) + multiset{x}
  {
    forall j | 0 <= j < |rest| ensures Precedes(o, s[0], rest[j]) {
      var y := rest[j];
      assert y in multiset(rest);
      if y != x {
        assert y in multiset(s[1..]);
        var k :| 0 <= k < |s[1..]| && s[1..][k] == y;
        assert s[k + 1] == y;
      }
    }
    SortedCons(o, s[0], rest);
    assert s == [s[0]] + s[1..];
  }

  /** Puts `x` before the first element it may precede, so on a tie `x`
      goes in front. Sort inserts each head into the already sorted rest of
      the list, so tied rows keep their scan order. */
  function Insert(o: Order, x: Task, s: seq<Task>): (r: seq<Task>)
    requires SortedBy(o, s)
    ensures SortedBy(o, r)
    ensures multiset(r) == multiset(s) + multiset{x}
  {
    if |s| == 0 then [x]
    else if Precedes(o, x, s[0]) then
      PrecedesAll(o, x, s);
      SortedCons(o, x, s);
      [x] + s
    else
      PrecedesTotal(o, x, s[0]);
      assert SortedBy(o, s[1..]);
      var rest := Insert(o, x, s[1..]);
      BehindHead(o, s, x, rest);
      [s[0]] + rest
  }

  /** Insertion sort: the ordering the query's ORDER BY produces, as a
      permutation of the selected rows. */
  function Sort(o: Order, s: seq<Task>): (r: seq<Task>)
    ensures SortedBy(o, r)
    ensures multiset(r) == multiset(s)
  {
    if |s| == 0 then []
    else
      assert s == [s[0]] + s[1..];
      Insert(o, s[0], Sort(o, s[1..]))
  }

  lemma SortSameElements(o: Order, s: seq<Task>)
    ensures forall t :: t in Sort(o, s) <==> t in s
  {
    var r := Sort(o, s);
    forall t ensures t in r <==> t in s {
      assert t in r <==> t in multiset(r);
      assert t in s <==> t in multiset(s);
    }
  }

  // ---- the queries ------------------------------------------------------------

  /** The where-clauses of the three queries. */
  function ForDate(user: UserId, date: Date): Task -> bool {
    (t: Task) => t.userId == user && t.taskDate == date
  }

  function IsOverdue(user: UserId, today: Date): Task -> bool {
    (t: Task) => t.userId == user && !t.isDone && Before(t.taskDate, today)
  }

  function IsUpcoming(user: UserId, today: Date, days: int): Task -> bool {
    (t: Task) => t.userId == user && !t.isDone
                 && OnOrBefore(NextDay(today), t.taskDate) && OnOrBefore(t.taskDate, AddDays(today, days))
  }

  /** A query: the rows matching the where-clause `p`, ordered by `o`. */
  function Query(o: Order, tasks: map<TaskId, Task>, p: Task -> bool): (r: seq<Task>)
    ensures forall t :: t in r <==> t in tasks.Values && p(t)
    ensures SortedBy(o, r)
    ensures multiset(r) == multiset(Select(tasks, p))
    ensures |r| == |Matching(tasks, p)|
  {
    var s := Select(tasks, p);
    var r := Sort(o, s);
    SortSameElements(o, s);
    assert |r| == |multiset(r)| == |multiset(s)| == |s|;
    r
  }

  /** getTasksForDate: the user's tasks on that date, highest priority first,
      newest first among equal priorities. Each matching row appears once. */
  function TasksForDate(tasks: map<TaskId, Task>, user: UserId, date: Date): (r: seq<Task>)
    ensures forall t :: t in r <==> t in tasks.Values && t.userId == user && t.taskDate == date
    ensures SortedBy(PriorityDescNewestFirst, r)
    ensures multiset(r) == multiset(Select(tasks, ForDate(user, date)))
    ensures |r| == |Matching(tasks, ForDate(user, date))|
  {
    Query(PriorityDescNewestFirst, tasks, ForDate(user, date))
  }

  /** getTodaysTasks: the tasks for the date passed in as today. */
  function TodaysTasks(tasks: map<TaskId, Task>, user: UserId, today: Date): (r: seq<Task>)
    ensures forall t :: t in r <==> t in tasks.Values && t.userId == user && t.taskDate == today
    ensures SortedBy(PriorityDescNewestFirst, r)
    ensures multiset(r) == multiset(Select(tasks, ForDate(user, today)))
    ensures |r| == |Matching(tasks, ForDate(user, today))|
  {
    TasksForDate(tasks, user, today)
  }

  /** getOverdueTasks: the user's pending tasks dated before today, oldest first. */
  function OverdueTasks(tasks: map<TaskId, Task>, user: UserId, today: Date): (r: seq<Task>)
    ensures forall t :: t in r <==> t in tasks.Values && t.userId == user && !t.isDone && Before(t.taskDate, today)
    ensures SortedBy(DateAscending, r)
    ensures multiset(r) == multiset(Select(tasks, IsOverdue(user, today)))
    ensures |r| == |Matching(tasks, IsOverdue(user, today))|
  {
    Query(DateAscending, tasks, IsOverdue(user, today))
  }

  /** getUpcomingTasks: the user's pending tasks from tomorrow through
      today + days, both ends included, earliest first. */
  function UpcomingTasks(tasks: map<TaskId, Task>, user: UserId, today: Date, days: int): (r: seq<Task>)
    ensures forall t :: t in r <==> (t in tasks.Values && t.userId == user && !t.isDone
                                     && OnOrBefore(NextDay(today), t.taskDate)
                                     && OnOrBefore(t.taskDate, AddDays(today, days)))
    ensures SortedBy(DateAscending, r)
    ensures multiset(r) == multiset(Select(tasks, IsUpcoming(user, today, days)))
    ensures |r| == |Matching(tasks, IsUpcoming(user, today, days))|
  {
    Query(DateAscending, tasks, IsUpcoming(user, today, days))
  }

  /** The default window of getUpcomingTasks is seven days. */
  const DefaultUpcomingDays := 7

  /** A window of less than one day holds nothing. */
  lemma UpcomingEmptyForShortWindow(tasks: map<TaskId, Task>, user: UserId, today: Date, days: int)
    requires days < 1
    ensures UpcomingTasks(tasks, user, today, days) == []
  {
    var r := UpcomingTasks(tasks, user, today, days);
    if days < 0 {
      AddDaysBackward(today, days);
    }
    assert Before(AddDays(today, days), NextDay(today));
  }

  /** A pending task of the user is in exactly one of: overdue, today's,
      upcoming in the window, or later than the window. Overdue and upcoming
      never share a task, and neither holds a task dated today. */
  lemma QueriesPartitionPending(tasks: map<TaskId, Task>, user: UserId, today: Date, days: int, t: Task)
    requires t in tasks.Values && t.userId == user && !t.isDone
    ensures t in OverdueTasks(tasks, user, today) <==> Before(t.taskDate, today)
    ensures t in TodaysTasks(tasks, user, today) <==> t.taskDate == today
    ensures !(t in OverdueTasks(tasks, user, today) && t in UpcomingTasks(tasks, user, today, days))
    ensures t in TodaysTasks(tasks, user, today) ==>
              t !in OverdueTasks(tasks, user, today) && t !in UpcomingTasks(tasks, user, today, days)
  {
    assert Before(today, NextDay(today));
  }

  // ---- getTaskStatistics -------------------------------------------------------

  /** completion_rate in hundredths of a percent: `round(completed / total * 100, 2)`
      with halves rounded up, or 0 for no tasks. */
  function CompletionRate(completed: nat, total: nat): (r: nat)
    ensures total == 0 ==> r == 0
    ensures total > 0 ==> 2 * total * r <= 20000 * completed + total < 2 * total * (r + 1)
    ensures completed <= total ==> r <= 10000
  {
    if total == 0 then 0
    else
      var n, d := 20000 * completed + total, 2 * total;
      DivBounds(n, d);
      if completed <= total then
        QuotientBelow(n, d, 10001);
        n / d
      else n / d
  }

  lemma DivBounds(n: nat, d: nat)
    requires d > 0
    ensures d * (n / d) <= n < d * (n / d + 1)
  {
  }

  lemma QuotientBelow(n: nat, d: nat, k: nat)
    requires d > 0 && n < d * k
    ensures n / d < k
  {
    var q := n / d;
    DivBounds(n, d);
    assert d * (k - q) == d * k - d * q;
    assert d * (k - q) > 0;
  }

  lemma CompletionRateExamples()
    ensures CompletionRate(3, 4) == 7500
    ensures CompletionRate(1, 3) == 3333 && CompletionRate(2, 3) == 6667
    ensures CompletionRate(1, 8) == 1250 && CompletionRate(1, 32) == 313
    ensures CompletionRate(0, 5) == 0 && CompletionRate(5, 5) == 10000
  {
  }

  /** The optional inclusive date range of getTaskStatistics. */
  predicate InRange(t: Task, start: Option<Date>, end: Option<Date>) {
    (start.Some? ==> OnOrBefore(start.value, t.taskDate)) && (end.Some? ==> OnOrBefore(t.taskDate, end.value))
  }

  datatype Statistics = Statistics(total: nat, completed: nat, pending: int, completionRate: nat)

  /** The user's tasks in the range, and those of them that are done or pending. */
  predicate InScope(t: Task, user: UserId, start: Option<Date>, end: Option<Date>) {
    t.userId == user && InRange(t, start, end)
  }

  /** The where-clauses of getTaskStatistics: the scope, and its done and pending parts. */
  function Scope(user: UserId, start: Option<Date>, end: Option<Date>): Task -> bool {
    (t: Task) => InScope(t, user, start, end)
  }

  function ScopeDone(user: UserId, start: Option<Date>, end: Option<Date>): Task -> bool {
    (t: Task) => InScope(t, user, start, end) && t.isDone
  }

  function ScopePending(user: UserId, start: Option<Date>, end: Option<Date>): Task -> bool {
    (t: Task) => InScope(t, user, start, end) && !t.isDone
  }

  /** The three counted queries count the matching keys, and the done and
      pending counts add up to the total. */
  lemma ScopeCounts(tasks: map<TaskId, Task>, user: UserId, start: Option<Date>, end: Option<Date>)
    ensures |Select(tasks, Scope(user, start, end))| == |set k | k in tasks && InScope(tasks[k], user, start, end)|
    ensures |Select(tasks, ScopeDone(user, start, end))|
         == |set k | k in tasks && InScope(tasks[k], user, start, end) && tasks[k].isDone|
    ensures |Select(tasks, ScopePending(user, start, end))|
         == |set k | k in tasks && InScope(tasks[k], user, start, end) && !tasks[k].isDone|
    ensures |Select(tasks, Scope(user, start, end))|
         == |Select(tasks, ScopeDone(user, start, end))| + |Select(tasks, ScopePending(user, start, end))|
  {
    KeepSplit(SortedKeys(tasks.Keys), tasks, Scope(user, start, end),
              ScopeDone(user, start, end), ScopePending(user, start, end));
    ScopeMatching(tasks, user, start, end);
  }

  lemma ScopeMatching(tasks: map<TaskId, Task>, user: UserId, start: Option<Date>, end: Option<Date>)
    ensures Matching(tasks, Scope(user, start, end)) == set k | k in tasks && InScope(tasks[k], user, start, end)
    ensures Matching(tasks, ScopeDone(user, start, end))
         == set k | k in tasks && InScope(tasks[k], user, start, end) && tasks[k].isDone
    ensures Matching(tasks, ScopePending(user, start, end))
         == set k | k in tasks && InScope(tasks[k], user, start, end) && !tasks[k].isDone
  {
  }

  /** getTaskStatistics: counts of the user's tasks whose date lies in the
      optional inclusive range. */
  function TaskStatistics(tasks: map<TaskId, Task>, user: UserId, start: Option<Date>, end: Option<Date>)
    : (s: Statistics)
    ensures s.completed <= s.total && s.pending == s.total - s.completed
    ensures s.completionRate == CompletionRate(s.completed, s.total)
    ensures s.total == |set k | k in tasks && InScope(tasks[k], user, start, end)|
    ensures s.completed == |set k | k in tasks && InScope(tasks[k], user, start, end) && tasks[k].isDone|
    ensures s.pending == |set k | k in tasks && InScope(tasks[k], user, start, end) && !tasks[k].isDone|
  {
    ScopeCounts(tasks, user, start, end);
    var total := |Select(tasks, Scope(user, start, end))|;
    var completed := |Select(tasks, ScopeDone(user, start, end))|;
    Statistics(total, completed, total - completed, CompletionRate(completed, total))
  }

}

/** app/Console/Commands/SendTaskReminders.php: the `reminders:send` sweep.
    It selects the due tasks, notifies each task's owner once, and on success
    writes reminded_at through update() and counts the reminder. Whether a
    notification throws is an oracle: the set of task ids whose notify call
    throws. */
module Reminders {
  import opened Wrappers
  import opened TaskModel
  import TaskService
  import TaskQueries
  import TaskStore

  /** Command::SUCCESS. */
  const Success: int := 0

  /** The selection: a reminder time at or before now, never reminded, not done. */
  predicate Due(t: Task, now: Timestamp) {
    t.reminderAt.Some? && t.reminderAt.value <= now && t.remindedAt.None? && !t.isDone
  }

  predicate Increasing(s: seq<TaskId>) {
    forall i, j :: 0 <= i < j < |s| ==> s[i] < s[j]
  }

  lemma IncreasingTail(s: seq<TaskId>)
    requires |s| > 0 && Increasing(s)
    ensures Increasing(s[1..])
    ensures forall k :: k in s[1..] ==> s[0] < k
  {
    forall k | k in s[1..] ensures s[0] < k {
      var m :| 0 <= m < |s[1..]| && s[1..][m] == k;
      assert s[m + 1] == k;
    }
  }

  lemma IncreasingCons(x: TaskId, s: seq<TaskId>)
    requires Increasing(s) && forall k :: k in s ==> x < k
    ensures Increasing([x] + s)
  {
    var r := [x] + s;
    forall i, j | 0 <= i < j < |r| ensures r[i] < r[j] {
      assert r[j] == s[j - 1];
      if i > 0 {
        assert r[i] == s[i - 1];
      } else {
        assert r[j] in s;
      }
    }
  }

  /** The keys of `keys`, in order, whose rows are due. */
  function DueAmong(keys: seq<TaskId>, tasks: map<TaskId, Task>, now: Timestamp): (r: seq<TaskId>)
    requires forall k :: k in keys ==> k in tasks
    requires Increasing(keys)
    ensures forall k :: k in r <==> k in keys && Due(tasks[k], now)
    ensures Increasing(r)
  {
    if |keys| == 0 then []
    else
      IncreasingTail(keys);
      var rest := DueAmong(keys[1..], tasks, now);
      if Due(tasks[keys[0]], now) then
        IncreasingCons(keys[0], rest);
        [keys[0]] + rest
      else rest
  }

  /** The ids the query returns, in id order. */
  function DueIds(tasks: map<TaskId, Task>, now: Timestamp): (r: seq<TaskId>)
    ensures forall k :: k in r <==> k in tasks && Due(tasks[k], now)
    ensures Increasing(r)
  {
    DueAmong(TaskQueries.SortedKeys(tasks.Keys), tasks, now)
  }

  /** The attribute array of `$task->update(['reminded_at' => now()])`. */
  function RemindedData(now: Timestamp): TaskData {
    NoData.(remindedAt := Given(now))
  }

  /** The row after that update under the guard. */
  function Mark(t: Task, now: Timestamp, g: Guard): Task {
    TaskService.Save(t, Fill(t, RemindedData(now), g), now)
  }

  /** The table after the update of every row in `ids` whose notification
      did not throw. */
  function MarkAll(tasks: map<TaskId, Task>, ids: seq<TaskId>, throws: set<TaskId>, now: Timestamp, g: Guard)
    : (r: map<TaskId, Task>)
    ensures r.Keys == tasks.Keys
  {
    map k | k in tasks :: if k in ids && k !in throws then Mark(tasks[k], now, g) else tasks[k]
  }

  /** The ids of `ids` whose notification did not throw (count++), in order. */
  function Successes(ids: seq<TaskId>, throws: set<TaskId>): (r: seq<TaskId>)
    ensures forall k :: k in r <==> k in ids && k !in throws
  {
    if |ids| == 0 then []
    else Successes(ids[..|ids| - 1], throws) + (if ids[|ids| - 1] in throws then [] else [ids[|ids| - 1]])
  }

  /** The ids whose notification threw (one error line each), in order. */
  function Failures(ids: seq<TaskId>, throws: set<TaskId>): (r: seq<TaskId>)
    ensures forall k :: k in r <==> k in ids && k in throws
  {
    if |ids| == 0 then []
    else Failures(ids[..|ids| - 1], throws) + (if ids[|ids| - 1] in throws then [ids[|ids| - 1]] else [])
  }

  /** Successes keeps the order of `ids`: the successes of a concatenation
      are the successes of its parts, concatenated. */
  lemma {:induction false} SuccessesAppend(a: seq<TaskId>, b: seq<TaskId>, throws: set<TaskId>)
    ensures Successes(a + b, throws) == Successes(a, throws) + Successes(b, throws)
    decreases |b|
  {
    if |b| == 0 {
      assert a + b == a;
    } else {
      var init := b[..|b| - 1];
      SuccessesAppend(a, init, throws);
      OutcomesStep(a, b, throws);
    }
  }

  /** Failures keeps the order of `ids` in the same way. */
  lemma {:induction false} FailuresAppend(a: seq<TaskId>, b: seq<TaskId>, throws: set<TaskId>)
    ensures Failures(a + b, throws) == Failures(a, throws) + Failures(b, throws)
    decreases |b|
  {
    if |b| == 0 {
      assert a + b == a;
    } else {
      var init := b[..|b| - 1];
      FailuresAppend(a, init, throws);
      OutcomesStep(a, b, throws);
    }
  }

  /** The last id of `b` is handled last in both `b` and `a + b`. */
  lemma OutcomesStep(a: seq<TaskId>, b: seq<TaskId>, throws: set<TaskId>)
    requires |b| > 0
    ensures var init, last := b[..|b| - 1], b[|b| - 1];
      && Successes(a + b, throws) == Successes(a + init, throws) + (if last in throws then [] else [last])
      && Successes(b, throws) == Successes(init, throws) + (if last in throws then [] else [last])
      && Failures(a + b, throws) == Failures(a + init, throws) + (if last in throws then [last] else [])
      && Failures(b, throws) == Failures(init, throws) + (if last in throws then [last] else [])
  {
    var init := b[..|b| - 1];
    assert (a + b)[..|a + b| - 1] == a + init;
    assert (a + b)[|a + b| - 1] == b[|b| - 1];
  }

  /** The positions of `ids` whose notification did (not) throw. */
  function SuccessPositions(ids: seq<TaskId>, throws: set<TaskId>): set<nat> {
    set i: nat | i < |ids| && ids[i] !in throws
  }

  function FailurePositions(ids: seq<TaskId>, throws: set<TaskId>): set<nat> {
    set i: nat | i < |ids| && ids[i] in throws
  }

  lemma OutcomePositionsSnoc(ids: seq<TaskId>, throws: set<TaskId>)
    requires |ids| > 0
    ensures var n := |ids| - 1;
      && SuccessPositions(ids, throws) == SuccessPositions(ids[..n], throws) + (if ids[n] in throws then {} else {n})
      && FailurePositions(ids, throws) == FailurePositions(ids[..n], throws) + (if ids[n] in throws then {n} else {})
      && n !in SuccessPositions(ids[..n], throws) && n !in FailurePositions(ids[..n], throws)
  {
    var n := |ids| - 1;
    forall i: nat | i < n ensures ids[..n][i] == ids[i] {
    }
  }

  /** Successes holds one id per notification that did not throw (the final
      count), Failures one per notification that threw. */
  lemma {:induction false} OutcomeCounts(ids: seq<TaskId>, throws: set<TaskId>)
    ensures |Successes(ids, throws)| == |SuccessPositions(ids, throws)|
    ensures |Failures(ids, throws)| == |FailurePositions(ids, throws)|
  {
    if |ids| > 0 {
      OutcomeCounts(ids[..|ids| - 1], throws);
      OutcomePositionsSnoc(ids, throws);
    }
  }

  /** A prefix of an increasing sequence is increasing and below its next element. */
  lemma IncreasingPrefix(s: seq<TaskId>, n: nat)
    requires Increasing(s) && n < |s|
    ensures Increasing(s[..n])
    ensures forall k :: k in s[..n] ==> k < s[n]
  {
    forall k | k in s[..n] ensures k < s[n] {
      var m :| 0 <= m < n && s[..n][m] == k;
      assert s[m] == k;
    }
  }

  /** The distinct ids of a sequence. */
  function Elems(s: seq<TaskId>): set<TaskId> {
    set k | k in s
  }

  /** An increasing sequence lists as many ids as it has distinct ids. */
  lemma {:induction false} IncreasingCard(s: seq<TaskId>)
    requires Increasing(s)
    ensures |Elems(s)| == |s|
  {
    if |s| > 0 {
      var n := |s| - 1;
      var init := s[..n];
      IncreasingPrefix(s, n);
      IncreasingCard(init);
      forall k ensures k in Elems(s) <==> k in Elems(init) + {s[n]} {
        assert s == init + [s[n]];
      }
      assert Elems(s) == Elems(init) + {s[n]};
      assert s[n] !in Elems(init);
    }
  }

  /** The successes of increasing ids are increasing. */
  lemma {:induction false} SuccessesIncreasing(ids: seq<TaskId>, throws: set<TaskId>)
    requires Increasing(ids)
    ensures Increasing(Successes(ids, throws))
  {
    if |ids| > 0 {
      var n := |ids| - 1;
      IncreasingPrefix(ids, n);
      SuccessesIncreasing(ids[..n], throws);
      var init := Successes(ids[..n], throws);
      if ids[n] !in throws {
        forall i, j | 0 <= i < j < |init| + 1 ensures (init + [ids[n]])[i] < (init + [ids[n]])[j] {
          if j == |init| {
            assert init[i] in init;
          }
        }
      }
    }
  }

  /** Over ids without repeats (the query's increasing ids), the count is the
      number of distinct ids whose notification did not throw. */
  lemma IncreasingSuccessCount(ids: seq<TaskId>, throws: set<TaskId>)
    requires Increasing(ids)
    ensures |Successes(ids, throws)| == |set k | k in ids && k !in throws|
  {
    var r := Successes(ids, throws);
    SuccessesIncreasing(ids, throws);
    IncreasingCard(r);
    assert Elems(r) == (set k | k in ids && k !in throws);
  }

  /** The sweep's count is the number of due tasks whose notification did not throw. */
  lemma DueSuccessCount(tasks: map<TaskId, Task>, now: Timestamp, throws: set<TaskId>)
    ensures |Successes(DueIds(tasks, now), throws)|
         == |set k | k in tasks && Due(tasks[k], now) && k !in throws|
  {
    var due := DueIds(tasks, now);
    IncreasingSuccessCount(due, throws);
    assert (set k | k in due && k !in throws) == (set k | k in tasks && Due(tasks[k], now) && k !in throws);
  }

  /** Every selected task either succeeds or fails. */
  lemma {:induction false} SuccessesPlusFailures(ids: seq<TaskId>, throws: set<TaskId>)
    ensures |Successes(ids, throws)| + |Failures(ids, throws)| == |ids|
  {
    if |ids| > 0 {
      SuccessesPlusFailures(ids[..|ids| - 1], throws);
    }
  }

  /** One more task handled by the loop. */
  lemma MarkAllStep(tasks: map<TaskId, Task>, ids: seq<TaskId>, id: TaskId, throws: set<TaskId>, now: Timestamp, g: Guard)
    requires id in tasks && id !in ids
    ensures id !in throws ==>
      MarkAll(tasks, ids + [id], throws, now, g) == MarkAll(tasks, ids, throws, now, g)[id := Mark(tasks[id], now, g)]
    ensures id in throws ==> MarkAll(tasks, ids + [id], throws, now, g) == MarkAll(tasks, ids, throws, now, g)
  {
    assert forall k :: k in ids + [id] <==> k in ids || k == id;
  }

  lemma MarkAllNone(tasks: map<TaskId, Task>, throws: set<TaskId>, now: Timestamp, g: Guard)
    ensures MarkAll(tasks, [], throws, now, g) == tasks
  {
  }

  lemma SuccessesFailuresSnoc(ids: seq<TaskId>, id: TaskId, throws: set<TaskId>)
    ensures Successes(ids + [id], throws) == Successes(ids, throws) + (if id in throws then [] else [id])
    ensures Failures(ids + [id], throws) == Failures(ids, throws) + (if id in throws then [id] else [])
  {
    assert (ids + [id])[..|ids|] == ids;
  }

  /** The next id of an increasing sequence extends the handled prefix and
      is not in it yet. */
  lemma NextInPrefix(s: seq<TaskId>, i: nat)
    requires Increasing(s) && i < |s|
    ensures s[..i + 1] == s[..i] + [s[i]]
    ensures s[i] !in s[..i]
  {
    forall m | 0 <= m < i ensures s[..i][m] < s[i] {
      assert s[..i][m] == s[m];
    }
  }

  /** The sweep writes only reminded_at and updated_at of existing rows, so
      it keeps the table's invariant. */
  lemma MarkAllKeepsValid(db: TaskService.Db, ids: seq<TaskId>, throws: set<TaskId>, now: Timestamp, g: Guard)
    requires TaskService.Valid(db)
    ensures TaskService.Valid(db.(tasks := MarkAll(db.tasks, ids, throws, now, g)))
  {
    var db' := db.(tasks := MarkAll(db.tasks, ids, throws, now, g));
    forall k | k in db'.tasks
      ensures db'.tasks[k].id == k && k < db'.nextId && TaskService.CategoryFits(db', db'.tasks[k])
    {
      var t := db.tasks[k];
      FillWritesExactlyFillable(t, RemindedData(now), g, CategoryColumn);
      assert TaskService.CategoryFits(db, t);
    }
  }

  /** The body of the loop for one selected task: the notification, and on
      success the update of reminded_at. */
  method RemindOne(table: TaskStore.TaskTable, ghost before: map<TaskId, Task>, ghost handled: seq<TaskId>,
                   id: TaskId, throws: set<TaskId>, now: Timestamp)
    requires id in before && id !in handled
    requires table.Valid()
    requires table.tasks == MarkAll(before, handled, throws, now, table.guard)
    modifies table
    ensures table.Valid()
    ensures table.tasks == MarkAll(before, handled + [id], throws, now, table.guard)
    ensures table.nextId == old(table.nextId) && table.categories == old(table.categories)
  {
    MarkAllStep(before, handled, id, throws, now, table.guard);
    if id !in throws {
      table.Update(id, RemindedData(now), now);
    }
  }

  /** The foreach of handle() over the selected ids, in order. */
  method RemindAll(table: TaskStore.TaskTable, due: seq<TaskId>, throws: set<TaskId>, now: Timestamp)
    returns (count: nat, failed: seq<TaskId>)
    requires forall k :: k in due ==> k in table.tasks
    requires Increasing(due)
    requires table.Valid()
    modifies table
    ensures table.Valid()
    ensures count == |Successes(due, throws)| && failed == Failures(due, throws)
    ensures table.tasks == MarkAll(old(table.tasks), due, throws, now, table.guard)
    ensures table.nextId == old(table.nextId) && table.categories == old(table.categories)
  {
    ghost var before := table.tasks;
    count, failed := 0, [];
    MarkAllNone(before, throws, now, table.guard);
    assert due[..0] == [];
    for i := 0 to |due|
      invariant table.tasks == MarkAll(before, due[..i], throws, now, table.guard)
      invariant count == |Successes(due[..i], throws)| && failed == Failures(due[..i], throws)
      invariant table.nextId == old(table.nextId) && table.categories == old(table.categories)
      invariant table.Valid()
    {
      var id := due[i];
      NextInPrefix(due, i);
      SuccessesFailuresSnoc(due[..i], id, throws);
      RemindOne(table, before, due[..i], id, throws, now);
      if id !in throws {
        count := count + 1;
      } else {
        failed := failed + [id];
      }
    }
    assert due[..|due|] == due;
  }

  /** handle(): select the due tasks, notify each once in query order, on
      success write reminded_at and count it, on failure report it and go on. */
  method SendTaskReminders(table: TaskStore.TaskTable, now: Timestamp, throws: set<TaskId>)
    returns (notified: seq<TaskId>, count: nat, failed: seq<TaskId>, exitCode: int)
    requires table.Valid()
    modifies table
    ensures table.Valid()
    ensures notified == DueIds(old(table.tasks), now)
    ensures count == |Successes(notified, throws)| && failed == Failures(notified, throws)
    ensures count + |failed| == |notified|
    ensures count == |set k | k in old(table.tasks) && Due(old(table.tasks)[k], now) && k !in throws|
    ensures table.tasks == MarkAll(old(table.tasks), notified, throws, now, table.guard)
    ensures table.nextId == old(table.nextId) && table.categories == old(table.categories)
    ensures exitCode == Success
  {
    notified := DueIds(table.tasks, now);
    count, failed := RemindAll(table, notified, throws, now);
    SuccessesPlusFailures(notified, throws);
    DueSuccessCount(old(table.tasks), now, throws);
    exitCode := Success;
  }

  /** Under the shipped `$fillable`, reminded_at is not fillable, so the update
      in the sweep writes nothing at all... */
  lemma AsWrittenMarksNothing(tasks: map<TaskId, Task>, ids: seq<TaskId>, throws: set<TaskId>, now: Timestamp)
    ensures MarkAll(tasks, ids, throws, now, AsWritten) == tasks
  {
    forall k | k in tasks ensures MarkAll(tasks, ids, throws, now, AsWritten)[k] == tasks[k] {
      AsWrittenDropsRecurrenceAndReminded(tasks[k], RemindedData(now));
    }
  }

  /** ...and the next run selects the same tasks again: every reminder that
      went out is sent once more on every later run. */
  lemma AsWrittenResendsReminders(tasks: map<TaskId, Task>, now: Timestamp, later: Timestamp, throws: set<TaskId>)
    requires now <= later
    ensures var due := DueIds(tasks, now);
      forall k :: k in Successes(due, throws) ==>
        k in DueIds(MarkAll(tasks, due, throws, now, AsWritten), later)
  {
    AsWrittenMarksNothing(tasks, DueIds(tasks, now), throws, now);
  }

  /** With reminded_at fillable, each reminded task is stamped with the
      time of the run and every other row is left alone... */
  lemma IntendedMarksReminded(tasks: map<TaskId, Task>, ids: seq<TaskId>, throws: set<TaskId>, now: Timestamp)
    ensures var r := MarkAll(tasks, ids, throws, now, Intended);
      forall k :: k in tasks ==>
        (k in ids && k !in throws ==>
           r[k].remindedAt == Some(now)
           && (tasks[k].remindedAt != Some(now) ==> r[k].updatedAt == now)
           && forall c :: c != RemindedAt ==> SameColumn(r[k], tasks[k], c))
        && (!(k in ids && k !in throws) ==> r[k] == tasks[k])
  {
    var r := MarkAll(tasks, ids, throws, now, Intended);
    forall k | k in tasks && k in ids && k !in throws
      ensures r[k].remindedAt == Some(now)
      ensures tasks[k].remindedAt != Some(now) ==> r[k].updatedAt == now
      ensures forall c :: c != RemindedAt ==> SameColumn(r[k], tasks[k], c)
    {
      var t := tasks[k];
      var f := Fill(t, RemindedData(now), Intended);
      FillWritesExactlyFillable(t, RemindedData(now), Intended, RemindedAt);
      if f == t {
        assert t.remindedAt == Some(now);
      }
      forall c | c != RemindedAt ensures SameColumn(r[k], t, c) {
        FillWritesExactlyFillable(t, RemindedData(now), Intended, c);
      }
    }
  }

  /** ...so a later run selects exactly the tasks whose notification threw. */
  lemma IntendedRetriesOnlyFailures(tasks: map<TaskId, Task>, now: Timestamp, later: Timestamp, throws: set<TaskId>)
    requires now <= later
    ensures var due := DueIds(tasks, now);
      var after := MarkAll(tasks, due, throws, now, Intended);
      forall k :: k in due ==> (k in DueIds(after, later) <==> k in throws)
  {
    IntendedMarksReminded(tasks, DueIds(tasks, now), throws, now);
  }
}

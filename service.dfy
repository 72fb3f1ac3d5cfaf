/** The state-changing half of app/Services/TaskService.php as functions on a
    snapshot of the database: the tasks table, its auto-increment counter and
    the categories table. The class in tasktable.dfy runs these operations in
    place and is proved to agree with them. */
module TaskService {
  import opened Wrappers
  import opened Calendar
  import opened TaskModel

  datatype Db = Db(tasks: map<TaskId, Task>, nextId: TaskId, categories: map<CategoryId, Category>)

  /** InvalidArgumentException('Category does not belong to user'), or the
      insert/update rejected by the database because a NOT NULL column would
      receive no value. */
  datatype Error = CategoryNotOwned | NotNullViolation(column: Column)

  predicate OwnsCategory(db: Db, user: UserId, c: CategoryId) {
    c in db.categories && db.categories[c].userId == user
  }

  /** The task's category, if any, is one of its owner's categories. */
  predicate CategoryFits(db: Db, t: Task) {
    t.categoryId.Some? ==> OwnsCategory(db, t.userId, t.categoryId.value)
  }

  /** Primary keys match the rows, the counter is past every key, and every
      category reference resolves to a category of the same user. */
  predicate Valid(db: Db) {
    (forall id :: id in db.tasks ==> db.tasks[id].id == id && id < db.nextId)
    && (forall c :: c in db.categories ==> db.categories[c].id == c)
    && (forall id :: id in db.tasks ==> CategoryFits(db, db.tasks[id]))
  }

  // ---- createTask / updateTask ----------------------------------------------

  /** The defaults the insert starts from: not done, medium priority, no
      reminder, no category, no recurrence. */
  function NewRow(id: TaskId, user: UserId, title: string, date: Date, now: Timestamp): Task {
    Task(id, user, title, false, date, None, None, None, DefaultPriority, None, None, now, now)
  }

  /** A missing (or null) task_date becomes today. */
  function WithDefaultDate(data: TaskData, today: Date): TaskData {
    if data.taskDate.None? then data.(taskDate := Some(today)) else data
  }

  /** $user->tasks()->create($data) after the date default and the category check. */
  function CreateTask(db: Db, user: UserId, data: TaskData, today: Date, now: Timestamp, g: Guard)
    : Result<(Db, Task), Error>
  {
    var d := WithDefaultDate(data, today);
    if d.categoryId.Given? && !OwnsCategory(db, user, d.categoryId.value) then Err(CategoryNotOwned)
    else if d.title.None? then Err(NotNullViolation(Title))
    else if NullIntoNotNull(d, g) then Err(NotNullViolation(Priority))
    else
      var row := Fill(NewRow(db.nextId, user, d.title.value, today, now), d, g);
      Ok((db.(tasks := db.tasks[db.nextId := row], nextId := db.nextId + 1), row))
  }

  lemma CreateTaskSpec(db: Db, user: UserId, data: TaskData, today: Date, now: Timestamp, g: Guard)
    requires Valid(db)
    ensures var r := CreateTask(db, user, data, today, now, g);
      && (r.Err? <==> (data.categoryId.Given? && !OwnsCategory(db, user, data.categoryId.value))
                      || data.title.None? || data.priority.Null?)
      && (data.categoryId.Given? && !OwnsCategory(db, user, data.categoryId.value) ==> r == Err(CategoryNotOwned))
      && (r.Ok? ==>
            var (db', t) := r.value;
            && t.id == db.nextId && t.id !in db.tasks
            && db'.tasks == db.tasks[t.id := t] && db'.categories == db.categories
            && |db'.tasks| == |db.tasks| + 1
            && t.userId == user
            && t.title == data.title.value
            && t.taskDate == (if data.taskDate.Some? then data.taskDate.value else today)
            && t.isDone == (data.isDone == Some(true))
            && t.priority == (if data.priority.Given? then data.priority.value else DefaultPriority)
            && SlotHolds(t.categoryId, data.categoryId)
            && SlotHolds(t.reminderAt, data.reminderAt)
            && t.createdAt == now && t.updatedAt == now)
  {
    var r := CreateTask(db, user, data, today, now, g);
    if r.Ok? {
      assert db.nextId !in db.tasks;
    }
  }

  /** The attribute array is the only source of recurrence on insert, and the
      shipped guard drops it: a task created through the service never recurs. */
  lemma CreateTaskRecurrence(db: Db, user: UserId, data: TaskData, today: Date, now: Timestamp, g: Guard)
    requires CreateTask(db, user, data, today, now, g).Ok?
    ensures var t := CreateTask(db, user, data, today, now, g).value.1;
      && (g == AsWritten ==> t.recurrence == None && t.recurrenceEndsAt == None && t.remindedAt == None)
      && (g == Intended ==> SlotHolds(t.recurrence, data.recurrence)
                            && SlotHolds(t.recurrenceEndsAt, data.recurrenceEndsAt))
  {
  }

  lemma CreateTaskKeepsValid(db: Db, user: UserId, data: TaskData, today: Date, now: Timestamp, g: Guard)
    requires Valid(db)
    requires CreateTask(db, user, data, today, now, g).Ok?
    ensures Valid(CreateTask(db, user, data, today, now, g).value.0)
  {
    var (db', t) := CreateTask(db, user, data, today, now, g).value;
    forall id | id in db'.tasks
      ensures db'.tasks[id].id == id && id < db'.nextId && CategoryFits(db', db'.tasks[id])
    {
      if id != t.id {
        assert db'.tasks[id] == db.tasks[id];
        assert CategoryFits(db, db.tasks[id]);
      }
    }
  }

  /** Eloquent's save after fill: a row whose attributes did not change is not
      written and keeps its updated_at; a changed row gets updated_at = now. */
  function Save(t: Task, filled: Task, now: Timestamp): Task {
    if filled == t then t else filled.(updatedAt := now)
  }

  /** $task->update($data) after the category check, then $task->fresh(). */
  function UpdateTask(db: Db, id: TaskId, data: TaskData, now: Timestamp, g: Guard): Result<(Db, Task), Error>
    requires id in db.tasks
  {
    var t := db.tasks[id];
    if data.categoryId.Given? && !OwnsCategory(db, t.userId, data.categoryId.value) then Err(CategoryNotOwned)
    else if NullIntoNotNull(data, g) then Err(NotNullViolation(Priority))
    else
      var saved := Save(t, Fill(t, data, g), now);
      Ok((db.(tasks := db.tasks[id := saved]), saved))
  }

  /** Two rows with every column, the key and the timestamps equal are equal. */
  lemma SameRow(a: Task, b: Task)
    requires forall c :: SameColumn(a, b, c)
    requires a.id == b.id && a.createdAt == b.createdAt && a.updatedAt == b.updatedAt
    ensures a == b
  {
    assert SameColumn(a, b, Title) && SameColumn(a, b, OwnerColumn) && SameColumn(a, b, IsDone);
    assert SameColumn(a, b, TaskDate) && SameColumn(a, b, ReminderAt) && SameColumn(a, b, CategoryColumn);
    assert SameColumn(a, b, Priority) && SameColumn(a, b, Recurrence) && SameColumn(a, b, RecurrenceEndsAt);
    assert SameColumn(a, b, RemindedAt);
  }

  /** The row after fill and save: the fillable columns the data names hold
      their new values, every other column, the key, the owner and created_at
      are kept, and updated_at moves only when something changed. */
  lemma SaveFillSpec(t: Task, data: TaskData, now: Timestamp, g: Guard)
    requires !NullIntoNotNull(data, g)
    ensures var t' := Save(t, Fill(t, data, g), now);
      && (forall c :: c in Fillable(g) ==> Holds(t', data, c))
      && (forall c :: c !in Fillable(g) || !Names(data, c) ==> SameColumn(t', t, c))
      && t'.id == t.id && t'.userId == t.userId && t'.createdAt == t.createdAt
      && ((forall c :: SameColumn(t', t, c)) ==> t' == t)
      && ((exists c :: !SameColumn(t', t, c)) ==> t'.updatedAt == now)
  {
    var f := Fill(t, data, g);
    forall c ensures (c in Fillable(g) ==> Holds(f, data, c))
                     && (c !in Fillable(g) || !Names(data, c) ==> SameColumn(f, t, c)) {
      FillWritesExactlyFillable(t, data, g, c);
    }
    var t' := Save(t, f, now);
    if forall c :: SameColumn(t', t, c) {
      forall c ensures SameColumn(f, t, c) {
        assert SameColumn(t', t, c);
      }
      FillWritesExactlyFillable(t, data, g, Title);
      SameRow(f, t);
    }
  }

  lemma UpdateTaskSpec(db: Db, id: TaskId, data: TaskData, now: Timestamp, g: Guard)
    requires Valid(db) && id in db.tasks
    ensures var t := db.tasks[id];
      var r := UpdateTask(db, id, data, now, g);
      && (r.Err? <==> (data.categoryId.Given? && !OwnsCategory(db, t.userId, data.categoryId.value))
                      || data.priority.Null?)
      && (data.categoryId.Given? && !OwnsCategory(db, t.userId, data.categoryId.value) ==> r == Err(CategoryNotOwned))
      && (r.Ok? ==>
            var (db', t') := r.value;
            && db'.tasks == db.tasks[id := t'] && db'.nextId == db.nextId && db'.categories == db.categories
            && db'.tasks[id] == t'
            && t' == Save(t, Fill(t, data, g), now))
  {
  }

  /** A null category_id is not checked and clears the category. */
  lemma UpdateNullCategory(db: Db, id: TaskId, data: TaskData, now: Timestamp, g: Guard)
    requires id in db.tasks && data.categoryId.Null? && !data.priority.Null?
    ensures UpdateTask(db, id, data, now, g).Ok?
    ensures UpdateTask(db, id, data, now, g).value.1.categoryId == None
  {
  }

  /** The shipped guard never lets an update set recurrence or its end date. */
  lemma UpdateTaskRecurrence(db: Db, id: TaskId, data: TaskData, now: Timestamp, g: Guard)
    requires id in db.tasks && UpdateTask(db, id, data, now, g).Ok?
    ensures var t' := UpdateTask(db, id, data, now, g).value.1;
      && (g == AsWritten ==> t'.recurrence == db.tasks[id].recurrence
                             && t'.recurrenceEndsAt == db.tasks[id].recurrenceEndsAt)
      && (g == Intended ==> SlotHolds(t'.recurrence, data.recurrence)
                            && SlotHolds(t'.recurrenceEndsAt, data.recurrenceEndsAt))
  {
  }

  lemma UpdateTaskKeepsValid(db: Db, id: TaskId, data: TaskData, now: Timestamp, g: Guard)
    requires Valid(db) && id in db.tasks
    requires UpdateTask(db, id, data, now, g).Ok?
    ensures Valid(UpdateTask(db, id, data, now, g).value.0)
  {
    var (db', t') := UpdateTask(db, id, data, now, g).value;
    assert CategoryFits(db, db.tasks[id]);
    assert CategoryFits(db', t');
    forall k | k in db'.tasks ensures db'.tasks[k].id == k && k < db'.nextId && CategoryFits(db', db'.tasks[k]) {
      if k != id {
        assert CategoryFits(db, db.tasks[k]);
      }
    }
  }

  // ---- recurrence --------------------------------------------------------------

  /** The `match` on the recurrence value: the next date after `d`, or None
      for a value that is not one of the four. */
  function Advance(recurrence: string, d: Date): Option<Date> {
    if recurrence == "daily" then Some(NextDay(d))
    else if recurrence == "weekly" then Some(AddDays(d, 7))
    else if recurrence == "monthly" then Some(AddMonthsOverflow(d, 1))
    else if recurrence == "yearly" then Some(AddYearsOverflow(d, 1))
    else None
  }

  predicate IsRecurrenceUnit(s: string) {
    s == "daily" || s == "weekly" || s == "monthly" || s == "yearly"
  }

  /** A known unit always moves strictly forward; any other value stops the series. */
  lemma AdvanceSpec(recurrence: string, d: Date)
    ensures Advance(recurrence, d).Some? <==> IsRecurrenceUnit(recurrence)
    ensures Advance(recurrence, d).Some? ==> Before(d, Advance(recurrence, d).value)
  {
    if recurrence == "weekly" {
      AddDaysForward(d, 7);
    } else if recurrence == "monthly" {
      AddMonthsOverflowForward(d, 1);
    } else if recurrence == "yearly" {
      AddMonthsOverflowForward(d, 12);
    }
  }

  /** The date of the next occurrence, unless the series has ended: an end
      date strictly before the next date stops it (isAfter is strict). */
  function NextOccurrence(t: Task): Option<Date> {
    if t.recurrence.None? then None
    else match Advance(t.recurrence.value, t.taskDate)
      case None => None
      case Some(next) =>
        if t.recurrenceEndsAt.Some? && Before(t.recurrenceEndsAt.value, next) then None
        else Some(next)
  }

  lemma NextOccurrenceSpec(t: Task)
    ensures NextOccurrence(t).Some? <==>
      t.recurrence.Some? && IsRecurrenceUnit(t.recurrence.value)
      && (t.recurrenceEndsAt.Some? ==>
            OnOrBefore(Advance(t.recurrence.value, t.taskDate).value, t.recurrenceEndsAt.value))
    ensures NextOccurrence(t).Some? ==> Before(t.taskDate, NextOccurrence(t).value)
  {
    if t.recurrence.Some? {
      AdvanceSpec(t.recurrence.value, t.taskDate);
    }
  }

  /** createRecurringTask: a replicate of `original`, not done, dated at the
      next occurrence and saved directly (so no guard applies), or nothing. */
  function CreateRecurringTask(db: Db, original: Task, now: Timestamp): (r: (Db, Option<Task>))
    ensures db.tasks.Keys <= r.0.tasks.Keys
    ensures r.1.Some? <==> NextOccurrence(original).Some?
    ensures r.1.None? ==> r.0 == db
    ensures r.1.Some? ==>
      var copy := r.1.value;
      && copy.id == db.nextId && copy.createdAt == now && copy.updatedAt == now
      && !copy.isDone && copy.taskDate == NextOccurrence(original).value
      && (forall c :: c != IsDone && c != TaskDate ==> SameColumn(copy, original, c))
      && r.0.tasks.Keys == db.tasks.Keys + {db.nextId} && r.0.tasks[db.nextId] == copy
      && (forall k :: k in db.tasks && k != db.nextId ==> r.0.tasks[k] == db.tasks[k])
      && r.0.nextId == db.nextId + 1 && r.0.categories == db.categories
  {
    match NextOccurrence(original)
    case None => (db, None)
    case Some(next) =>
      var copy := Replicate(original, db.nextId, now).(isDone := false, taskDate := next);
      (db.(tasks := db.tasks[db.nextId := copy], nextId := db.nextId + 1), Some(copy))
  }

  /** The copy keeps its original's owner and category and takes the counter
      as its key, so inserting it keeps the table's invariant. */
  lemma CreateRecurringKeepsValid(db: Db, original: Task, now: Timestamp)
    requires Valid(db) && CategoryFits(db, original)
    ensures Valid(CreateRecurringTask(db, original, now).0)
  {
    var (db', r) := CreateRecurringTask(db, original, now);
    if r.Some? {
      var copy := r.value;
      assert SameColumn(copy, original, OwnerColumn) && SameColumn(copy, original, CategoryColumn);
      forall k | k in db'.tasks ensures db'.tasks[k].id == k && k < db'.nextId && CategoryFits(db', db'.tasks[k]) {
        if k != db.nextId {
          assert CategoryFits(db, db.tasks[k]);
        }
      }
    }
  }

  /** toggleTask: flip is_done through update(), spawn the next occurrence
      when a pending recurring task has just been completed, then fresh(). */
  function ToggleTask(db: Db, id: TaskId, now: Timestamp): (Db, Task)
    requires id in db.tasks
  {
    var t := db.tasks[id];
    var flipped := t.(isDone := !t.isDone, updatedAt := now);
    var db1 := db.(tasks := db.tasks[id := flipped]);
    var db2 := if !t.isDone && Truthy(t.recurrence) then CreateRecurringTask(db1, flipped, now).0 else db1;
    (db2, db2.tasks[id])
  }

  /** The flip is the update(['is_done' => !was]) of updateTask. */
  lemma ToggleIsUpdate(db: Db, id: TaskId, now: Timestamp, g: Guard)
    requires id in db.tasks
    ensures var t := db.tasks[id];
      UpdateTask(db, id, NoData.(isDone := Some(!t.isDone)), now, g).Ok?
      && UpdateTask(db, id, NoData.(isDone := Some(!t.isDone)), now, g).value.1
         == t.(isDone := !t.isDone, updatedAt := now)
  {
    var t := db.tasks[id];
    var f := Fill(t, NoData.(isDone := Some(!t.isDone)), g);
    assert f.isDone != t.isDone;
  }

  /** The toggled task changes is_done (and updated_at) and nothing else, and
      the result returned is that row. */
  lemma ToggleFlips(db: Db, id: TaskId, now: Timestamp)
    requires Valid(db) && id in db.tasks
    ensures var t := db.tasks[id];
      var (db', t') := ToggleTask(db, id, now);
      && t' == t.(isDone := !t.isDone, updatedAt := now)
      && db'.tasks[id] == t'
      && db'.categories == db.categories
      && (forall k :: k in db.tasks && k != id ==> k in db'.tasks && db'.tasks[k] == db.tasks[k])
  {
  }

  /** A spawn happens exactly when a pending task with a live recurrence is
      completed; the task count then grows by one, otherwise it is unchanged. */
  lemma ToggleSpawnsIff(db: Db, id: TaskId, now: Timestamp)
    requires Valid(db) && id in db.tasks
    ensures var t := db.tasks[id];
      var db' := ToggleTask(db, id, now).0;
      && (!t.isDone && NextOccurrence(t).Some? ==>
            db'.nextId == db.nextId + 1 && db'.tasks.Keys == db.tasks.Keys + {db.nextId}
            && |db'.tasks| == |db.tasks| + 1)
      && (!(!t.isDone && NextOccurrence(t).Some?) ==>
            db'.nextId == db.nextId && db'.tasks.Keys == db.tasks.Keys && |db'.tasks| == |db.tasks|)
  {
    var t := db.tasks[id];
    var flipped := t.(isDone := !t.isDone, updatedAt := now);
    assert NextOccurrence(flipped) == NextOccurrence(t);
    assert db.nextId !in db.tasks;
    if !t.isDone && NextOccurrence(t).Some? {
      assert Truthy(t.recurrence);
    }
  }

  /** The spawned task is the original in every column except is_done, which
      is false, and task_date, which is the next occurrence after the old one. */
  lemma SpawnedCopy(db: Db, id: TaskId, now: Timestamp)
    requires Valid(db) && id in db.tasks
    requires !db.tasks[id].isDone && NextOccurrence(db.tasks[id]).Some?
    ensures var t := db.tasks[id];
      var s := ToggleTask(db, id, now).0.tasks[db.nextId];
      && s.id == db.nextId && s.createdAt == now && s.updatedAt == now
      && !s.isDone && s.taskDate == NextOccurrence(t).value
      && Before(t.taskDate, s.taskDate)
      && (forall c :: c != IsDone && c != TaskDate ==> SameColumn(s, t, c))
  {
    var t := db.tasks[id];
    assert Truthy(t.recurrence);
    NextOccurrenceSpec(t);
    var flipped := t.(isDone := !t.isDone, updatedAt := now);
    assert NextOccurrence(flipped) == NextOccurrence(t);
  }

  lemma ToggleKeepsValid(db: Db, id: TaskId, now: Timestamp)
    requires Valid(db) && id in db.tasks
    ensures Valid(ToggleTask(db, id, now).0)
  {
    var t := db.tasks[id];
    var db' := ToggleTask(db, id, now).0;
    assert CategoryFits(db, t);
    ToggleSpawnsIff(db, id, now);
    ToggleFlips(db, id, now);
    forall k | k in db'.tasks ensures db'.tasks[k].id == k && k < db'.nextId && CategoryFits(db', db'.tasks[k]) {
      if k == db.nextId {
        SpawnedCopy(db, id, now);
        assert SameColumn(db'.tasks[k], t, OwnerColumn) && SameColumn(db'.tasks[k], t, CategoryColumn);
      } else if k != id {
        assert CategoryFits(db, db.tasks[k]);
      }
    }
  }

  /** Un-completing never spawns, and neither does a task without recurrence. */
  lemma ToggleNoSpawn(db: Db, id: TaskId, now: Timestamp)
    requires Valid(db) && id in db.tasks
    requires db.tasks[id].isDone || db.tasks[id].recurrence.None?
    ensures ToggleTask(db, id, now).0.tasks.Keys == db.tasks.Keys
  {
    ToggleSpawnsIff(db, id, now);
  }

  /** Completing a pending task whose series continues: one row is added at
      the counter, the completed row is the only other change, and the new
      row carries the series on from the next date. */
  lemma CompleteAndSpawn(db: Db, id: TaskId, now: Timestamp) returns (db': Db)
    requires Valid(db) && id in db.tasks
    requires !db.tasks[id].isDone && NextOccurrence(db.tasks[id]).Some?
    ensures db' == ToggleTask(db, id, now).0 && Valid(db')
    ensures db'.tasks.Keys == db.tasks.Keys + {db.nextId} && db'.nextId == db.nextId + 1
    ensures db'.tasks[id] == db.tasks[id].(isDone := true, updatedAt := now)
    ensures forall k :: k in db.tasks && k != id ==> db'.tasks[k] == db.tasks[k]
    ensures var s := db'.tasks[db.nextId];
      && !s.isDone && s.taskDate == NextOccurrence(db.tasks[id]).value
      && s.recurrence == db.tasks[id].recurrence && s.recurrenceEndsAt == db.tasks[id].recurrenceEndsAt
  {
    ToggleSpawnsIff(db, id, now);
    SpawnedCopy(db, id, now);
    ToggleFlips(db, id, now);
    ToggleKeepsValid(db, id, now);
    db' := ToggleTask(db, id, now).0;
    assert SameColumn(db'.tasks[db.nextId], db.tasks[id], Recurrence);
    assert SameColumn(db'.tasks[db.nextId], db.tasks[id], RecurrenceEndsAt);
  }

  /** Completing a pending task whose series has ended only marks it done. */
  lemma CompleteLast(db: Db, id: TaskId, now: Timestamp) returns (db': Db)
    requires id in db.tasks
    requires !db.tasks[id].isDone && NextOccurrence(db.tasks[id]).None?
    ensures db' == ToggleTask(db, id, now).0
    ensures db'.tasks == db.tasks[id := db.tasks[id].(isDone := true, updatedAt := now)]
  {
    var t := db.tasks[id];
    assert NextOccurrence(t.(isDone := true, updatedAt := now)) == NextOccurrence(t);
    db' := ToggleTask(db, id, now).0;
  }

  /** One completion in a daily series that has not reached its end date:
      the task at `id`, dated `date`, is completed and row `next` carries the
      series on from the following day. */
  lemma DailyStep(db: Db, id: TaskId, next: TaskId, date: Date, ends: Date, now: Timestamp) returns (db': Db)
    requires id in db.tasks && next == db.nextId && next !in db.tasks
    requires var t := db.tasks[id];
      !t.isDone && t.taskDate == date && t.recurrence == Some("daily") && t.recurrenceEndsAt == Some(ends)
      && OnOrBefore(NextDay(date), ends)
    ensures db' == ToggleTask(db, id, now).0
    ensures db'.nextId == next + 1 && next in db'.tasks
    ensures db'.tasks == db.tasks[id := db.tasks[id].(isDone := true, updatedAt := now)][next := db'.tasks[next]]
    ensures var s := db'.tasks[next];
      && !s.isDone && s.taskDate == NextDay(date)
      && s.recurrence == Some("daily") && s.recurrenceEndsAt == Some(ends)
  {
    var t := db.tasks[id];
    DailyNext(t);
    assert NextOccurrence(t.(isDone := true, updatedAt := now)) == NextOccurrence(t);
    db' := ToggleTask(db, id, now).0;
  }

  /** A daily series ending two days after its first date: completing the
      first occurrence and then each spawned one yields exactly three rows,
      dated on three consecutive days, and the third completion spawns nothing. */
  lemma DailySeriesEndsAfterThree(db: Db, id: TaskId, now: Timestamp) returns (db1: Db, db2: Db, db3: Db)
    requires Valid(db) && id in db.tasks
    requires var t := db.tasks[id];
      !t.isDone && t.recurrence == Some("daily") && t.recurrenceEndsAt == Some(AddDays(t.taskDate, 2))
    ensures db1 == ToggleTask(db, id, now).0
    ensures db.nextId in db1.tasks && db2 == ToggleTask(db1, db.nextId, now).0
    ensures db.nextId + 1 in db2.tasks && db3 == ToggleTask(db2, db.nextId + 1, now).0
    ensures db3.tasks.Keys == db.tasks.Keys + {db.nextId, db.nextId + 1}
    ensures db3.tasks[id].taskDate == db.tasks[id].taskDate
    ensures db3.tasks[db.nextId].taskDate == NextDay(db.tasks[id].taskDate)
    ensures db3.tasks[db.nextId + 1].taskDate == NextDay(NextDay(db.tasks[id].taskDate))
    ensures db3.tasks[id].isDone && db3.tasks[db.nextId].isDone && db3.tasks[db.nextId + 1].isDone
  {
    var d := db.tasks[id].taskDate;
    var d1 := NextDay(d);
    var ends := NextDay(d1);
    var n := db.nextId;
    TwoDaysLater(d);
    assert n !in db.tasks && n + 1 !in db.tasks;
    db1 := DailyStep(db, id, n, d, ends, now);
    db2 := DailyStep(db1, n, n + 1, d1, ends, now);
    DailyLast(db2.tasks[n + 1], ends);
    db3 := CompleteLast(db2, n + 1, now);
  }

  lemma TwoDaysLater(d: Date)
    ensures AddDays(d, 2) == NextDay(NextDay(d))
  {
    assert AddDays(d, 2) == AddDays(NextDay(d), 1);
    assert AddDays(NextDay(d), 1) == AddDays(NextDay(NextDay(d)), 0);
  }

  /** A daily task dated on its series' end date is the last one. */
  lemma DailyLast(t: Task, ends: Date)
    requires t.recurrence == Some("daily") && t.recurrenceEndsAt == Some(ends) && t.taskDate == ends
    ensures NextOccurrence(t) == None
  {
    DailyNext(t);
  }

  lemma DailyNext(t: Task)
    requires t.recurrence == Some("daily")
    ensures NextOccurrence(t) == if t.recurrenceEndsAt.Some? && Before(t.recurrenceEndsAt.value, NextDay(t.taskDate))
                                 then None else Some(NextDay(t.taskDate))
  {
    assert Advance("daily", t.taskDate) == Some(NextDay(t.taskDate));
  }

  /** A monthly task on January 31 2025 comes back on March 3. */
  lemma MonthlyFromJanuaryThirtyFirst(t: Task)
    requires t.taskDate == Ymd(2025, 1, 31) && t.recurrence == Some("monthly") && t.recurrenceEndsAt == None
    ensures NextOccurrence(t) == Some(Ymd(2025, 3, 3))
  {
    AdvanceMonthly(t.taskDate);
    JanuaryThirtyFirstPlusMonth();
  }

  lemma AdvanceMonthly(d: Date)
    ensures Advance("monthly", d) == Some(AddMonthsOverflow(d, 1))
  {
  }

  // ---- reschedule / delete -----------------------------------------------------

  /** rescheduleTask: update(['task_date' => newDate]) then fresh(). */
  function RescheduleTask(db: Db, id: TaskId, newDate: Date, now: Timestamp): (Db, Task)
    requires id in db.tasks
  {
    var t := db.tasks[id];
    var saved := Save(t, t.(taskDate := newDate), now);
    (db.(tasks := db.tasks[id := saved]), saved)
  }

  /** Rescheduling is the update of task_date alone, and changes no other column. */
  lemma RescheduleSpec(db: Db, id: TaskId, newDate: Date, now: Timestamp, g: Guard)
    requires id in db.tasks
    ensures UpdateTask(db, id, NoData.(taskDate := Some(newDate)), now, g) == Ok(RescheduleTask(db, id, newDate, now))
    ensures var (db', t') := RescheduleTask(db, id, newDate, now);
      && t'.taskDate == newDate && db'.tasks == db.tasks[id := t']
      && (forall c :: c != TaskDate ==> SameColumn(t', db.tasks[id], c))
      && t'.id == db.tasks[id].id && t'.createdAt == db.tasks[id].createdAt
      && (newDate == db.tasks[id].taskDate ==> t' == db.tasks[id])
  {
  }

  /** rescheduleToTomorrow moves the task to the day after today whatever its old date. */
  function RescheduleToTomorrow(db: Db, id: TaskId, today: Date, now: Timestamp): (r: (Db, Task))
    requires id in db.tasks
    ensures r.1.taskDate == NextDay(today) && Before(today, r.1.taskDate)
  {
    RescheduleTask(db, id, NextDay(today), now)
  }

  lemma RescheduleKeepsValid(db: Db, id: TaskId, newDate: Date, now: Timestamp)
    requires Valid(db) && id in db.tasks
    ensures Valid(RescheduleTask(db, id, newDate, now).0)
  {
    var db' := RescheduleTask(db, id, newDate, now).0;
    forall k | k in db'.tasks ensures db'.tasks[k].id == k && k < db'.nextId && CategoryFits(db', db'.tasks[k]) {
      assert CategoryFits(db, db.tasks[k]);
    }
  }

  /** deleteTask: the row is removed and the call reports true. */
  function DeleteTask(db: Db, id: TaskId): (r: (Db, bool))
    requires id in db.tasks
    ensures r.1
    ensures r.0.tasks.Keys == db.tasks.Keys - {id} && |r.0.tasks| == |db.tasks| - 1
    ensures forall k :: k in r.0.tasks ==> r.0.tasks[k] == db.tasks[k]
  {
    (db.(tasks := db.tasks - {id}), true)
  }

  lemma DeleteTaskKeepsValid(db: Db, id: TaskId)
    requires Valid(db) && id in db.tasks
    ensures Valid(DeleteTask(db, id).0)
  {
    var db' := DeleteTask(db, id).0;
    forall k | k in db'.tasks ensures CategoryFits(db', db'.tasks[k]) {
      assert CategoryFits(db, db.tasks[k]);
    }
  }

  // ---- referential actions of the schema ----------------------------------------

  /** Deleting a category: the foreign key is `nullOnDelete`, so its tasks
      keep existing with no category (a database-level write, which leaves
      updated_at alone). */
  function DeleteCategory(db: Db, c: CategoryId): Db {
    db.(categories := db.categories - {c},
        tasks := map k | k in db.tasks ::
          if db.tasks[k].categoryId == Some(c) then db.tasks[k].(categoryId := None) else db.tasks[k])
  }

  lemma DeleteCategorySpec(db: Db, c: CategoryId)
    requires Valid(db)
    ensures var db' := DeleteCategory(db, c);
      && Valid(db')
      && db'.tasks.Keys == db.tasks.Keys
      && (forall k :: k in db'.tasks ==> db'.tasks[k].categoryId != Some(c))
      && (forall k, col :: k in db'.tasks && col != CategoryColumn ==> SameColumn(db'.tasks[k], db.tasks[k], col))
      && (forall k :: k in db'.tasks && db.tasks[k].categoryId != Some(c) ==> db'.tasks[k] == db.tasks[k])
  {
    DeleteCategoryKeepsValid(db, c);
  }

  lemma DeleteCategoryKeepsValid(db: Db, c: CategoryId)
    requires Valid(db)
    ensures Valid(DeleteCategory(db, c))
  {
    var db' := DeleteCategory(db, c);
    forall k | k in db'.tasks ensures CategoryFits(db', db'.tasks[k]) {
      assert CategoryFits(db, db.tasks[k]);
    }
  }

  /** Deleting a user: tasks and categories cascade on `user_id`; any other
      task that pointed at one of the removed categories loses it. */
  function DeleteUser(db: Db, u: UserId): Db {
    var cats := map c | c in db.categories && db.categories[c].userId != u :: db.categories[c];
    db.(categories := cats,
        tasks := map k | k in db.tasks && db.tasks[k].userId != u ::
          var t := db.tasks[k];
          if t.categoryId.Some? && t.categoryId.value !in cats then t.(categoryId := None) else t)
  }

  lemma DeleteUserSpec(db: Db, u: UserId)
    requires Valid(db)
    ensures var db' := DeleteUser(db, u);
      && Valid(db')
      && (forall k :: k in db'.tasks ==> db'.tasks[k].userId != u)
      && (forall c :: c in db'.categories ==> db'.categories[c].userId != u)
      && (forall k :: k in db.tasks && db.tasks[k].userId != u ==> k in db'.tasks && db'.tasks[k] == db.tasks[k])
  {
    var db' := DeleteUser(db, u);
    forall k | k in db.tasks && db.tasks[k].userId != u ensures db'.tasks[k] == db.tasks[k] {
      assert CategoryFits(db, db.tasks[k]);
    }
  }
}

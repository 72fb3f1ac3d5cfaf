/** The persistent side of app/Services/TaskService.php: a table of task
    rows keyed by id, its auto-increment counter and the categories table,
    changed in place by the service's write operations. Every method is
    proved to leave the table in the state the corresponding TaskService
    function computes, and to keep the table's invariant. The read-only
    queries are the TaskQueries functions applied to the `tasks` field. */
module TaskStore {
  import opened Wrappers
  import opened Calendar
  import opened TaskModel
  import TaskService

  class TaskTable {
    var tasks: map<TaskId, Task>
    var nextId: TaskId
    var categories: map<CategoryId, Category>
    /** The `$fillable` list the model runs with. */
    const guard: Guard

    /** The table as a value. */
    function Snapshot(): TaskService.Db
      reads this
    {
      TaskService.Db(tasks, nextId, categories)
    }

    predicate Valid()
      reads this
    {
      TaskService.Valid(Snapshot())
    }

    /** An empty tasks table beside the given categories. */
    constructor (g: Guard, cats: map<CategoryId, Category>)
      requires forall c :: c in cats ==> cats[c].id == c
      ensures Valid()
      ensures guard == g && tasks == map[] && nextId == 0 && categories == cats
    {
      guard := g;
      tasks := map[];
      nextId := 0;
      categories := cats;
    }

    /** Model::update($data) on row `id`: fill under the guard, and save
        (with a fresh updated_at) only when some attribute changed. */
    method Update(id: TaskId, data: TaskData, now: Timestamp)
      requires Valid() && id in tasks && !NullIntoNotNull(data, guard)
      requires data.categoryId.Given? ==> TaskService.OwnsCategory(Snapshot(), tasks[id].userId, data.categoryId.value)
      modifies this
      ensures Valid()
      ensures tasks == old(tasks)[id := TaskService.Save(old(tasks)[id], Fill(old(tasks)[id], data, guard), now)]
      ensures nextId == old(nextId) && categories == old(categories)
    {
      ghost var db := Snapshot();
      var t := tasks[id];
      var filled := Fill(t, data, guard);
      if filled != t {
        tasks := tasks[id := filled.(updatedAt := now)];
      } else {
        assert tasks[id := t] == tasks;
      }
      TaskService.UpdateTaskKeepsValid(db, id, data, now, guard);
    }

    /** createTask: default the date, check the category, then insert the
        mass-assigned row under the next id. A failure leaves the table as it was. */
    method CreateTask(user: UserId, data: TaskData, today: Date, now: Timestamp) returns (r: Result<Task, TaskService.Error>)
      requires Valid()
      modifies this
      ensures Valid()
      ensures match TaskService.CreateTask(old(Snapshot()), user, data, today, now, guard)
        case Err(e) => r == Err(e) && Snapshot() == old(Snapshot())
        case Ok(res) => r == Ok(res.1) && Snapshot() == res.0
    {
      var d := data;
      if d.taskDate.None? {
        d := d.(taskDate := Some(today));
      }
      if d.categoryId.Given? && !(d.categoryId.value in categories && categories[d.categoryId.value].userId == user) {
        return Err(TaskService.CategoryNotOwned);
      }
      if d.title.None? {
        return Err(TaskService.NotNullViolation(Title));
      }
      if NullIntoNotNull(d, guard) {
        return Err(TaskService.NotNullViolation(Priority));
      }
      ghost var db := Snapshot();
      var row := Fill(TaskService.NewRow(nextId, user, d.title.value, today, now), d, guard);
      tasks := tasks[nextId := row];
      nextId := nextId + 1;
      TaskService.CreateTaskKeepsValid(db, user, data, today, now, guard);
      r := Ok(row);
    }

    /** updateTask: check the category against the task's owner, fill, save
        when something changed, and return the fresh row. */
    method UpdateTask(id: TaskId, data: TaskData, now: Timestamp) returns (r: Result<Task, TaskService.Error>)
      requires Valid() && id in tasks
      modifies this
      ensures Valid()
      ensures match TaskService.UpdateTask(old(Snapshot()), id, data, now, guard)
        case Err(e) => r == Err(e) && Snapshot() == old(Snapshot())
        case Ok(res) => r == Ok(res.1) && Snapshot() == res.0
    {
      var t := tasks[id];
      if data.categoryId.Given? && !(data.categoryId.value in categories && categories[data.categoryId.value].userId == t.userId) {
        return Err(TaskService.CategoryNotOwned);
      }
      if NullIntoNotNull(data, guard) {
        return Err(TaskService.NotNullViolation(Priority));
      }
      Update(id, data, now);
      r := Ok(tasks[id]);
    }

    /** createRecurringTask: insert the next occurrence of `original`, if the
        series goes on. Only the new row is added; no other row changes. */
    method CreateRecurringTask(original: Task, now: Timestamp) returns (r: Option<Task>)
      requires Valid() && TaskService.CategoryFits(Snapshot(), original)
      modifies this
      ensures Valid()
      ensures (Snapshot(), r) == TaskService.CreateRecurringTask(old(Snapshot()), original, now)
    {
      TaskService.CreateRecurringKeepsValid(Snapshot(), original, now);
      var next := TaskService.NextOccurrence(original);
      if next.None? {
        return None;
      }
      var copy := Replicate(original, nextId, now);
      copy := copy.(isDone := false, taskDate := next.value);
      tasks := tasks[nextId := copy];
      nextId := nextId + 1;
      r := Some(copy);
    }

    /** toggleTask: flip is_done; if the task was pending and recurs, insert
        its next occurrence; return the fresh row. */
    method ToggleTask(id: TaskId, now: Timestamp) returns (t: Task)
      requires Valid() && id in tasks
      modifies this
      ensures Valid()
      ensures (Snapshot(), t) == TaskService.ToggleTask(old(Snapshot()), id, now)
    {
      ghost var db := Snapshot();
      var wasCompleted := tasks[id].isDone;
      Update(id, NoData.(isDone := Some(!wasCompleted)), now);
      TaskService.ToggleIsUpdate(db, id, now, guard);
      if !wasCompleted && Truthy(tasks[id].recurrence) {
        var _ := CreateRecurringTask(tasks[id], now);
      }
      TaskService.ToggleKeepsValid(db, id, now);
      t := tasks[id];
    }

    /** rescheduleTask: update task_date alone and return the fresh row. */
    method RescheduleTask(id: TaskId, newDate: Date, now: Timestamp) returns (t: Task)
      requires Valid() && id in tasks
      modifies this
      ensures Valid()
      ensures (Snapshot(), t) == TaskService.RescheduleTask(old(Snapshot()), id, newDate, now)
    {
      ghost var db := Snapshot();
      Update(id, NoData.(taskDate := Some(newDate)), now);
      TaskService.RescheduleSpec(db, id, newDate, now, guard);
      TaskService.RescheduleKeepsValid(db, id, newDate, now);
      t := tasks[id];
    }

    /** rescheduleToTomorrow: reschedule to the day after today. */
    method RescheduleToTomorrow(id: TaskId, today: Date, now: Timestamp) returns (t: Task)
      requires Valid() && id in tasks
      modifies this
      ensures Valid()
      ensures (Snapshot(), t) == TaskService.RescheduleToTomorrow(old(Snapshot()), id, today, now)
      ensures t.taskDate == NextDay(today)
    {
      t := RescheduleTask(id, NextDay(today), now);
    }

    /** deleteTask: remove the row and report success. */
    method DeleteTask(id: TaskId) returns (deleted: bool)
      requires Valid() && id in tasks
      modifies this
      ensures Valid()
      ensures (Snapshot(), deleted) == TaskService.DeleteTask(old(Snapshot()), id)
    {
      ghost var db := Snapshot();
      tasks := tasks - {id};
      TaskService.DeleteTaskKeepsValid(db, id);
      deleted := true;
    }
  }
}

/** The `tasks` row (app/Models/Task.php and its migrations) and Eloquent's
    mass assignment: `create($data)` / `update($data)` write only the keys
    that `$fillable` lists and silently drop the others. */
module TaskModel {
  import opened Wrappers
  import opened Calendar

  type TaskId = nat
  type UserId = nat
  type CategoryId = nat
  /** A point in time (reminder_at, reminded_at, created_at, updated_at, now()). */
  type Timestamp = int

  /** Columns an attribute array can name. */
  datatype Column =
    | Title | OwnerColumn | IsDone | TaskDate | ReminderAt | CategoryColumn | Priority
    | Recurrence | RecurrenceEndsAt | RemindedAt

  /** Which `$fillable` list the model runs with: the one the repository ships,
      or the one its validators, tests and reminder command evidently expect. */
  datatype Guard = AsWritten | Intended

  /** Task::$fillable. */
  function Fillable(g: Guard): (cols: set<Column>)
    ensures {Title, OwnerColumn, IsDone, TaskDate, ReminderAt, CategoryColumn, Priority} <= cols
    ensures g == AsWritten ==> Recurrence !in cols && RecurrenceEndsAt !in cols && RemindedAt !in cols
    ensures g == Intended ==> Recurrence in cols && RecurrenceEndsAt in cols && RemindedAt in cols
  {
    var written := {Title, OwnerColumn, IsDone, TaskDate, ReminderAt, CategoryColumn, Priority};
    if g == AsWritten then written else written + {Recurrence, RecurrenceEndsAt, RemindedAt}
  }

  /** Priority is stored as 0 = Low, 1 = Medium, 2 = High; the column default is 1. */
  const DefaultPriority: int := 1

  /** A stored task. `task_date` is cast to a date without a time part and
      `is_done` to a boolean; the owner is never null and the category is an
      optional reference. */
  datatype Task = Task(
    id: TaskId,
    userId: UserId,
    title: string,
    isDone: bool,
    taskDate: Date,
    reminderAt: Option<Timestamp>,
    remindedAt: Option<Timestamp>,
    categoryId: Option<CategoryId>,
    priority: int,
    recurrence: Option<string>,
    recurrenceEndsAt: Option<Date>,
    createdAt: Timestamp,
    updatedAt: Timestamp)

  /** A stored category; every category has one owner. */
  datatype Category = Category(id: CategoryId, userId: UserId, name: string, color: string)

  /** A key of an attribute array: absent, present with null, or present with a value. */
  datatype Slot<T> = Absent | Null | Given(value: T)

  /** The attribute array handed to createTask/updateTask. `title`, `is_done`
      and `task_date` are absent or set (`task_date` absent also stands for a
      null value, which `isset` treats alike); the nullable columns and
      `priority` may also be given as null. */
  datatype TaskData = TaskData(
    title: Option<string>,
    isDone: Option<bool>,
    taskDate: Option<Date>,
    priority: Slot<int>,
    categoryId: Slot<CategoryId>,
    reminderAt: Slot<Timestamp>,
    recurrence: Slot<string>,
    recurrenceEndsAt: Slot<Date>,
    remindedAt: Slot<Timestamp>)

  const NoData := TaskData(None, None, None, Absent, Absent, Absent, Absent, Absent, Absent)

  /** True when the array names column `c`. */
  predicate Names(d: TaskData, c: Column) {
    match c
    case Title => d.title.Some?
    case OwnerColumn => false
    case IsDone => d.isDone.Some?
    case TaskDate => d.taskDate.Some?
    case ReminderAt => !d.reminderAt.Absent?
    case CategoryColumn => !d.categoryId.Absent?
    case Priority => !d.priority.Absent?
    case Recurrence => !d.recurrence.Absent?
    case RecurrenceEndsAt => !d.recurrenceEndsAt.Absent?
    case RemindedAt => !d.remindedAt.Absent?
  }

  /** Column `c` holds the same value in both rows. */
  predicate SameColumn(a: Task, b: Task, c: Column) {
    match c
    case Title => a.title == b.title
    case OwnerColumn => a.userId == b.userId
    case IsDone => a.isDone == b.isDone
    case TaskDate => a.taskDate == b.taskDate
    case ReminderAt => a.reminderAt == b.reminderAt
    case CategoryColumn => a.categoryId == b.categoryId
    case Priority => a.priority == b.priority
    case Recurrence => a.recurrence == b.recurrence
    case RecurrenceEndsAt => a.recurrenceEndsAt == b.recurrenceEndsAt
    case RemindedAt => a.remindedAt == b.remindedAt
  }

  /** Column `c` of row `t` holds what the array gives for it. */
  predicate Holds(t: Task, d: TaskData, c: Column) {
    match c
    case Title => d.title.Some? ==> t.title == d.title.value
    case OwnerColumn => true
    case IsDone => d.isDone.Some? ==> t.isDone == d.isDone.value
    case TaskDate => d.taskDate.Some? ==> t.taskDate == d.taskDate.value
    case ReminderAt => SlotHolds(t.reminderAt, d.reminderAt)
    case CategoryColumn => SlotHolds(t.categoryId, d.categoryId)
    case Priority => d.priority.Given? ==> t.priority == d.priority.value
    case Recurrence => SlotHolds(t.recurrence, d.recurrence)
    case RecurrenceEndsAt => SlotHolds(t.recurrenceEndsAt, d.recurrenceEndsAt)
    case RemindedAt => SlotHolds(t.remindedAt, d.remindedAt)
  }

  predicate SlotHolds<T(==)>(v: Option<T>, s: Slot<T>) {
    match s
    case Absent => true
    case Null => v == None
    case Given(x) => v == Some(x)
  }

  /** A null given for `priority`, which is a NOT NULL column. */
  predicate NullIntoNotNull(d: TaskData, g: Guard) {
    Priority in Fillable(g) && d.priority.Null?
  }

  function Pick<T>(write: bool, given: Option<T>, current: T): T {
    if write && given.Some? then given.value else current
  }

  function PickSlot<T>(write: bool, given: Slot<T>, current: Option<T>): Option<T> {
    if !write then current
    else match given
      case Absent => current
      case Null => None
      case Given(x) => Some(x)
  }

  /** Model::fill($data) under the guard: the fillable keys of `d` are
      written, the other keys are dropped, and the key and timestamps stay. */
  function Fill(t: Task, d: TaskData, g: Guard): (r: Task)
    requires !NullIntoNotNull(d, g)
  {
    var f := Fillable(g);
    t.(title := Pick(Title in f, d.title, t.title),
       isDone := Pick(IsDone in f, d.isDone, t.isDone),
       taskDate := Pick(TaskDate in f, d.taskDate, t.taskDate),
       reminderAt := PickSlot(ReminderAt in f, d.reminderAt, t.reminderAt),
       categoryId := PickSlot(CategoryColumn in f, d.categoryId, t.categoryId),
       priority := if Priority in f && d.priority.Given? then d.priority.value else t.priority,
       recurrence := PickSlot(Recurrence in f, d.recurrence, t.recurrence),
       recurrenceEndsAt := PickSlot(RecurrenceEndsAt in f, d.recurrenceEndsAt, t.recurrenceEndsAt),
       remindedAt := PickSlot(RemindedAt in f, d.remindedAt, t.remindedAt))
  }

  /** Mass assignment writes every fillable key the array names, leaves every
      column it does not name or may not fill as it was, and never touches
      the key, the owner or the timestamps. */
  lemma FillWritesExactlyFillable(t: Task, d: TaskData, g: Guard, c: Column)
    requires !NullIntoNotNull(d, g)
    ensures c in Fillable(g) ==> Holds(Fill(t, d, g), d, c)
    ensures c !in Fillable(g) || !Names(d, c) ==> SameColumn(Fill(t, d, g), t, c)
    ensures Fill(t, d, g).id == t.id && Fill(t, d, g).userId == t.userId
    ensures Fill(t, d, g).createdAt == t.createdAt && Fill(t, d, g).updatedAt == t.updatedAt
  {
  }

  /** Under the shipped guard, recurrence, its end date and reminded_at can
      never be set by mass assignment. */
  lemma AsWrittenDropsRecurrenceAndReminded(t: Task, d: TaskData)
    requires !NullIntoNotNull(d, AsWritten)
    ensures Fill(t, d, AsWritten).recurrence == t.recurrence
    ensures Fill(t, d, AsWritten).recurrenceEndsAt == t.recurrenceEndsAt
    ensures Fill(t, d, AsWritten).remindedAt == t.remindedAt
  {
  }

  /** Under the intended guard they are written like the other columns. */
  lemma IntendedKeepsRecurrenceAndReminded(t: Task, d: TaskData)
    requires !NullIntoNotNull(d, Intended)
    ensures SlotHolds(Fill(t, d, Intended).recurrence, d.recurrence)
    ensures SlotHolds(Fill(t, d, Intended).recurrenceEndsAt, d.recurrenceEndsAt)
    ensures SlotHolds(Fill(t, d, Intended).remindedAt, d.remindedAt)
  {
  }

  /** Model::replicate() followed by save(): every attribute is copied except
      the primary key and the two timestamps, which the insert sets afresh. */
  function Replicate(t: Task, newId: TaskId, now: Timestamp): (r: Task)
    ensures forall c :: SameColumn(r, t, c)
    ensures r.id == newId && r.createdAt == now && r.updatedAt == now
  {
    t.(id := newId, createdAt := now, updatedAt := now)
  }

  /** PHP truthiness of a string attribute: null, "" and "0" are false. */
  predicate Truthy(s: Option<string>) {
    s.Some? && s.value != "" && s.value != "0"
  }

  /** The tasks of a collection that are not done, in collection order. */
  function Pending(tasks: seq<Task>): (r: seq<Task>)
    ensures forall t :: t in r <==> t in tasks && !t.isDone
  {
    if |tasks| == 0 then []
    else (if tasks[0].isDone then [] else [tasks[0]]) + Pending(tasks[1..])
  }

  /** The tasks of a collection that are done, in collection order. */
  function Completed(tasks: seq<Task>): (r: seq<Task>)
    ensures forall t :: t in r <==> t in tasks && t.isDone
  {
    if |tasks| == 0 then []
    else (if tasks[0].isDone then [tasks[0]] else []) + Completed(tasks[1..])
  }

  /** Pending keeps collection order: filtering a concatenation is
      concatenating the filtered parts. */
  lemma {:induction false} PendingAppend(a: seq<Task>, b: seq<Task>)
    ensures Pending(a + b) == Pending(a) + Pending(b)
  {
    if |a| == 0 {
      assert a + b == b;
    } else {
      assert (a + b)[1..] == a[1..] + b;
      PendingAppend(a[1..], b);
    }
  }

  /** Completed keeps collection order in the same way. */
  lemma {:induction false} CompletedAppend(a: seq<Task>, b: seq<Task>)
    ensures Completed(a + b) == Completed(a) + Completed(b)
  {
    if |a| == 0 {
      assert a + b == b;
    } else {
      assert (a + b)[1..] == a[1..] + b;
      CompletedAppend(a[1..], b);
    }
  }

  /** Each not-done task occurs in Pending as often as in the collection,
      each done task in Completed, and neither holds anything else. */
  lemma {:induction false} FilterMultiplicity(tasks: seq<Task>)
    ensures forall t :: multiset(Pending(tasks))[t] == if t.isDone then 0 else multiset(tasks)[t]
    ensures forall t :: multiset(Completed(tasks))[t] == if t.isDone then multiset(tasks)[t] else 0
  {
    if |tasks| > 0 {
      assert tasks == [tasks[0]] + tasks[1..];
      FilterMultiplicity(tasks[1..]);
    }
  }

  /** Appending a task to a collection appends it to the filter it passes. */
  lemma PendingSnoc(init: seq<Task>, last: Task)
    ensures Pending(init + [last]) == Pending(init) + (if last.isDone then [] else [last])
  {
    PendingAppend(init, [last]);
    FilterSingleton(last);
  }

  lemma CompletedSnoc(init: seq<Task>, last: Task)
    ensures Completed(init + [last]) == Completed(init) + (if last.isDone then [last] else [])
  {
    CompletedAppend(init, [last]);
    FilterSingleton(last);
  }

  /** A single task is kept or dropped by its flag alone. */
  lemma FilterSingleton(t: Task)
    ensures Pending([t]) == (if t.isDone then [] else [t])
    ensures Completed([t]) == (if t.isDone then [t] else [])
  {
    assert [t][1..] == [];
  }

  /** The positions of a collection whose task is (not) done. */
  function PendingPositions(tasks: seq<Task>): set<nat> {
    set i: nat | i < |tasks| && !tasks[i].isDone
  }

  function CompletedPositions(tasks: seq<Task>): set<nat> {
    set i: nat | i < |tasks| && tasks[i].isDone
  }

  /** Appending a task adds its position to the matching set of positions. */
  lemma PositionsSnoc(init: seq<Task>, last: Task)
    ensures PendingPositions(init + [last]) == PendingPositions(init) + (if last.isDone then {} else {|init|})
    ensures CompletedPositions(init + [last]) == CompletedPositions(init) + (if last.isDone then {|init|} else {})
    ensures |init| !in PendingPositions(init) && |init| !in CompletedPositions(init)
  {
    var tasks := init + [last];
    forall i: nat | i < |init| ensures tasks[i] == init[i] {
    }
  }

  /** Appending a task adds one to the count of positions it matches. */
  lemma PositionsCount(init: seq<Task>, last: Task)
    ensures |PendingPositions(init + [last])| == |PendingPositions(init)| + (if last.isDone then 0 else 1)
    ensures |CompletedPositions(init + [last])| == |CompletedPositions(init)| + (if last.isDone then 1 else 0)
  {
    PositionsSnoc(init, last);
  }

  /** Pending lists one task per not-done position. */
  lemma {:induction false} PendingCount(tasks: seq<Task>)
    ensures |Pending(tasks)| == |PendingPositions(tasks)|
    decreases |tasks|
  {
    if |tasks| > 0 {
      var n := |tasks| - 1;
      var init, last := tasks[..n], tasks[n];
      assert tasks == init + [last];
      PendingCount(init);
      PendingSnoc(init, last);
      PositionsCount(init, last);
    }
  }

  /** Completed lists one task per done position. */
  lemma {:induction false} CompletedCount(tasks: seq<Task>)
    ensures |Completed(tasks)| == |CompletedPositions(tasks)|
    decreases |tasks|
  {
    if |tasks| > 0 {
      var n := |tasks| - 1;
      var init, last := tasks[..n], tasks[n];
      assert tasks == init + [last];
      CompletedCount(init);
      CompletedSnoc(init, last);
      PositionsCount(init, last);
    }
  }

  /** Every task is either pending or completed. */
  lemma {:induction false} PendingPlusCompleted(tasks: seq<Task>)
    ensures |Pending(tasks)| + |Completed(tasks)| == |tasks|
  {
    if |tasks| > 0 {
      PendingPlusCompleted(tasks[1..]);
    }
  }
}

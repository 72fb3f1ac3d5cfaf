/** The two form requests in front of the task service:
    app/Http/Requests/StoreTaskRequest.php (defaults merged into the input,
    then an all-fields rule table) and app/Http/Requests/UpdateTaskRequest.php
    (a partial patch: every rule is `sometimes`). The validator is modelled
    attribute by attribute as Laravel runs it: a rule on an absent key is
    skipped unless the rule is implicit (`required`, `required_with`), and
    `nullable` skips the other rules when the value is null. */
module Requests {
  import opened Wrappers
  import opened Calendar
  import opened TaskModel
  import TaskService
  import Text

  /** One key of the request input as the validator sees it: absent, present
      with null, present with a value of the expected kind, or present with a
      non-empty value that the attribute's type rule (`string`, `date`,
      `integer`, `boolean`, `exists`) refuses. */
  datatype Field<T> = Missing | NullSent | Sent(value: T) | Malformed

  /** The attributes the rule tables name, as keys of the error bag. */
  datatype Attribute =
    | TitleKey | TaskDateKey | CategoryKey | PriorityKey | ReminderAtKey
    | RecurrenceKey | RecurrenceEndsAtKey | IsDoneKey

  /** The request input. */
  datatype Input = Input(
    title: Field<string>,
    taskDate: Field<Date>,
    categoryId: Field<CategoryId>,
    priority: Field<int>,
    reminderAt: Field<Timestamp>,
    recurrence: Field<string>,
    recurrenceEndsAt: Field<Date>,
    isDone: Field<bool>)

  const EmptyInput := Input(Missing, Missing, Missing, Missing, Missing, Missing, Missing, Missing)

  /** `max:255` on the title. */
  const MaxTitleLength := 255

  // ---- rule building blocks ----------------------------------------------------

  /** A string that trims to "", which `required` treats as empty. */
  predicate Blank(s: string) {
    forall i :: 0 <= i < |s| ==> Text.PhpSpace(s[i])
  }

  /** Present and not empty, in the sense of `required` and `required_with`. */
  predicate FilledText(f: Field<string>) {
    (f.Sent? && !Blank(f.value)) || f.Malformed?
  }

  predicate Filled<T>(f: Field<T>) {
    f.Sent? || f.Malformed?
  }

  /** `nullable` followed by type and value rules: an absent key or a null
      skips them, a value of the wrong kind fails, a value of the right kind
      must satisfy `ok`. */
  predicate NullableRule<T>(f: Field<T>, ok: T -> bool) {
    match f
    case Missing => true
    case NullSent => true
    case Malformed => false
    case Sent(v) => ok(v)
  }

  /** `sometimes` followed by type and value rules, without `nullable`: an
      absent key skips them, but a null fails the type rule. */
  predicate SometimesRule<T>(f: Field<T>, ok: T -> bool) {
    match f
    case Missing => true
    case NullSent => false
    case Malformed => false
    case Sent(v) => ok(v)
  }

  /** `required|string|max:255`. */
  predicate TitleRule(f: Field<string>) {
    f.Sent? && !Blank(f.value) && |f.value| <= MaxTitleLength
  }

  predicate PriorityInRange(p: int) {
    0 <= p <= 2
  }

  /** `after:task_date`: compared with the other field's timestamp; when that
      field is absent, null or not a date, PHP compares against null and the
      rule holds. */
  predicate AfterTaskDate(d: Date, taskDate: Field<Date>) {
    taskDate.Sent? ==> Before(taskDate.value, d)
  }

  /** `nullable|date|after:task_date|required_with:recurrence`; the implicit
      `required_with` also runs on a null or absent end date. */
  predicate EndsAtRule(i: Input) {
    (FilledText(i.recurrence) ==> Filled(i.recurrenceEndsAt))
    && NullableRule(i.recurrenceEndsAt, (d: Date) => AfterTaskDate(d, i.taskDate))
  }

  // ---- StoreTaskRequest --------------------------------------------------------

  /** How prepareForValidation detects a missing key: `has()` as written,
      which sees an explicit null as present; or `filled()`, which also
      defaults a null. */
  datatype Preparation = HasKey | FilledKey

  predicate NeedsDefault<T>(f: Field<T>, p: Preparation) {
    f.Missing? || (p == FilledKey && f.NullSent?)
  }

  /** prepareForValidation: merge today's date and priority 1 into the input. */
  function Prepared(i: Input, today: Date, p: Preparation): (r: Input)
    ensures r.taskDate == (if NeedsDefault(i.taskDate, p) then Sent(today) else i.taskDate)
    ensures r.priority == (if NeedsDefault(i.priority, p) then Sent(DefaultPriority) else i.priority)
    ensures r.(taskDate := i.taskDate, priority := i.priority) == i
  {
    var withDate := if NeedsDefault(i.taskDate, p) then i.(taskDate := Sent(today)) else i;
    if NeedsDefault(withDate.priority, p) then withDate.(priority := Sent(DefaultPriority)) else withDate
  }

  /** The attributes of a prepared store input that fail their rules;
      `existing` is the set of category ids in the categories table. */
  function StoreErrors(i: Input, today: Date, now: Timestamp, existing: set<CategoryId>): set<Attribute> {
    (if TitleRule(i.title) then {} else {TitleKey})
    + (if NullableRule(i.taskDate, (d: Date) => OnOrBefore(today, d)) then {} else {TaskDateKey})
    + (if NullableRule(i.categoryId, (c: CategoryId) => c in existing) then {} else {CategoryKey})
    + (if NullableRule(i.priority, PriorityInRange) then {} else {PriorityKey})
    + (if NullableRule(i.reminderAt, (t: Timestamp) => now < t) then {} else {ReminderAtKey})
    + (if NullableRule(i.recurrence, TaskService.IsRecurrenceUnit) then {} else {RecurrenceKey})
    + (if EndsAtRule(i) then {} else {RecurrenceEndsAtKey})
  }

  /** A key of the validated array: keys the input lacks stay absent. */
  function ToSlot<T>(f: Field<T>): Slot<T> {
    match f
    case Missing => Absent
    case NullSent => Null
    case Sent(v) => Given(v)
    case Malformed => Absent
  }

  function ToOption<T>(f: Field<T>): Option<T> {
    if f.Sent? then Some(f.value) else None
  }

  /** $request->validated() of a store request, as the array createTask
      receives; `is_done` has no store rule and is never passed on. */
  function StoreData(i: Input): TaskData {
    TaskData(ToOption(i.title), None, ToOption(i.taskDate), ToSlot(i.priority), ToSlot(i.categoryId),
             ToSlot(i.reminderAt), ToSlot(i.recurrence), ToSlot(i.recurrenceEndsAt), Absent)
  }

  /** The whole store request: authorize() always grants, the defaults are
      merged, then the rules run; a failure is the 422 error bag. */
  function StoreOutcome(raw: Input, today: Date, now: Timestamp, existing: set<CategoryId>, p: Preparation)
    : Result<TaskData, set<Attribute>>
  {
    var i := Prepared(raw, today, p);
    var errors := StoreErrors(i, today, now, existing);
    if errors == {} then Ok(StoreData(i)) else Err(errors)
  }

  /** The request object: prepareForValidation merges the defaults into its
      input in place. */
  class StoreTaskRequest {
    var input: Input

    constructor (raw: Input)
      ensures input == raw
    {
      input := raw;
    }

    method PrepareForValidation(today: Date, p: Preparation)
      modifies this
      ensures input == Prepared(old(input), today, p)
    {
      if NeedsDefault(input.taskDate, p) {
        input := input.(taskDate := Sent(today));
      }
      if NeedsDefault(input.priority, p) {
        input := input.(priority := Sent(DefaultPriority));
      }
    }
  }

  /** A key absent from the input is defaulted before validation, so the
      defaults themselves always pass. */
  lemma DefaultsPass(raw: Input, today: Date, now: Timestamp, existing: set<CategoryId>, p: Preparation)
    requires raw.taskDate.Missing? && raw.priority.Missing?
    ensures var errors := StoreErrors(Prepared(raw, today, p), today, now, existing);
      TaskDateKey !in errors && PriorityKey !in errors
    ensures var data := StoreData(Prepared(raw, today, p));
      data.taskDate == Some(today) && data.priority == Given(DefaultPriority)
  {
  }

  /** An empty payload is refused on the title, and only on the title. */
  lemma EmptyStoreRefused(today: Date, now: Timestamp, existing: set<CategoryId>, p: Preparation)
    ensures StoreOutcome(EmptyInput, today, now, existing, p) == Err({TitleKey})
  {
  }

  /** The priority rule `nullable|integer|between:0,2` after the default:
      the store request fails on the priority exactly when a priority other
      than null was sent and it is not an integer in 0..2. */
  lemma StorePriorityOutOfRangeRefused(raw: Input, today: Date, now: Timestamp, existing: set<CategoryId>, p: Preparation)
    ensures PriorityKey in StoreErrors(Prepared(raw, today, p), today, now, existing)
            <==> raw.priority.Malformed? || (raw.priority.Sent? && !PriorityInRange(raw.priority.value))
    ensures raw.priority.Sent? && !PriorityInRange(raw.priority.value) ==>
              StoreOutcome(raw, today, now, existing, p).Err?
              && PriorityKey in StoreOutcome(raw, today, now, existing, p).error
  {
  }

  /** The date rule `nullable|date|after_or_equal:today` after the default:
      the store request fails on the date exactly when a date before today,
      or something that is not a date, was sent. */
  lemma StorePastDateRefused(raw: Input, today: Date, now: Timestamp, existing: set<CategoryId>, p: Preparation)
    ensures TaskDateKey in StoreErrors(Prepared(raw, today, p), today, now, existing)
            <==> raw.taskDate.Malformed? || (raw.taskDate.Sent? && Before(raw.taskDate.value, today))
    ensures raw.taskDate.Sent? && Before(raw.taskDate.value, today) ==>
              StoreOutcome(raw, today, now, existing, p).Err?
              && TaskDateKey in StoreOutcome(raw, today, now, existing, p).error
  {
  }

  /** A recurring task needs an end date, and the end date must fall after the task date. */
  lemma StoreRecurrenceNeedsEnd(raw: Input, today: Date, now: Timestamp, existing: set<CategoryId>, p: Preparation)
    requires raw.recurrence.Sent? && TaskService.IsRecurrenceUnit(raw.recurrence.value)
    requires raw.recurrenceEndsAt.Missing? || raw.recurrenceEndsAt.NullSent?
             || (raw.recurrenceEndsAt.Sent? && raw.taskDate.Sent?
                 && OnOrBefore(raw.recurrenceEndsAt.value, raw.taskDate.value))
    ensures StoreOutcome(raw, today, now, existing, p).Err?
    ensures RecurrenceEndsAtKey in StoreOutcome(raw, today, now, existing, p).error
  {
    var i := Prepared(raw, today, p);
    assert !Blank(i.recurrence.value) by {
      assert !Text.PhpSpace(i.recurrence.value[0]);
    }
    if raw.recurrenceEndsAt.Sent? {
      assert !Before(raw.taskDate.value, raw.recurrenceEndsAt.value);
    }
    assert !EndsAtRule(i);
  }

  /** What a prepared store input that passed every rule guarantees. */
  lemma AcceptedStoreInput(i: Input, today: Date, now: Timestamp, existing: set<CategoryId>)
    requires StoreErrors(i, today, now, existing) == {}
    ensures i.title.Sent? && !Blank(i.title.value) && |i.title.value| <= MaxTitleLength
    ensures !i.taskDate.Malformed? && (i.taskDate.Sent? ==> OnOrBefore(today, i.taskDate.value))
    ensures !i.categoryId.Malformed? && (i.categoryId.Sent? ==> i.categoryId.value in existing)
    ensures !i.priority.Malformed? && (i.priority.Sent? ==> PriorityInRange(i.priority.value))
    ensures !i.reminderAt.Malformed? && (i.reminderAt.Sent? ==> now < i.reminderAt.value)
    ensures !i.recurrence.Malformed? && !i.recurrenceEndsAt.Malformed?
    ensures i.recurrence.Sent? ==>
              && TaskService.IsRecurrenceUnit(i.recurrence.value)
              && i.recurrenceEndsAt.Sent?
              && (i.taskDate.Sent? ==> Before(i.taskDate.value, i.recurrenceEndsAt.value))
  {
    assert TitleKey !in StoreErrors(i, today, now, existing);
    assert RecurrenceKey !in StoreErrors(i, today, now, existing);
    assert RecurrenceEndsAtKey !in StoreErrors(i, today, now, existing);
    if i.recurrence.Sent? {
      assert TaskService.IsRecurrenceUnit(i.recurrence.value);
      assert !Blank(i.recurrence.value) by {
        assert !Text.PhpSpace(i.recurrence.value[0]);
      }
    }
  }

  /** The row rules a stored task meets after a validated request: a title
      within 255 characters, a priority in 0..2, and a known recurrence unit. */
  predicate RowRules(t: Task) {
    |t.title| <= MaxTitleLength && PriorityInRange(t.priority)
    && (t.recurrence.Some? ==> TaskService.IsRecurrenceUnit(t.recurrence.value))
  }

  /** A store request that validates, whose priority is not an explicit
      null (or whose defaults are applied with `filled()`), and whose
      category belongs to the user, inserts a row that meets the rules:
      the date is not in the past, the reminder lies after now, a recurring
      task ends after its date. */
  lemma StoreAcceptedRow(db: TaskService.Db, user: UserId, raw: Input, today: Date, now: Timestamp, g: Guard, p: Preparation)
    requires TaskService.Valid(db)
    requires StoreOutcome(raw, today, now, db.categories.Keys, p).Ok?
    requires p == FilledKey || !raw.priority.NullSent?
    requires raw.categoryId.Sent? ==> TaskService.OwnsCategory(db, user, raw.categoryId.value)
    ensures var data := StoreOutcome(raw, today, now, db.categories.Keys, p).value;
      var r := TaskService.CreateTask(db, user, data, today, now, g);
      && r.Ok?
      && var t := r.value.1;
      && RowRules(t) && !Blank(t.title)
      && OnOrBefore(today, t.taskDate)
      && (t.reminderAt.Some? ==> now < t.reminderAt.value)
      && (t.recurrence.Some? && !raw.taskDate.NullSent? ==>
            t.recurrenceEndsAt.Some? && Before(t.taskDate, t.recurrenceEndsAt.value))
  {
    var i := Prepared(raw, today, p);
    AcceptedStoreInput(i, today, now, db.categories.Keys);
    var data := StoreData(i);
    assert !data.priority.Null?;
    TaskService.CreateTaskRecurrence(db, user, data, today, now, g);
    var d := TaskService.WithDefaultDate(data, today);
    var t := Fill(TaskService.NewRow(db.nextId, user, d.title.value, today, now), d, g);
    assert TaskService.CreateTask(db, user, data, today, now, g).value.1 == t;
  }

  /** As written, an explicit `"priority": null` is seen as present by
      has(), passes `nullable`, and reaches the insert, where the NOT NULL
      priority column refuses it. */
  lemma NullPriorityAcceptedThenRefused(db: TaskService.Db, user: UserId, title: string, today: Date, now: Timestamp, g: Guard)
    requires TaskService.Valid(db)
    requires !Blank(title) && |title| <= MaxTitleLength
    ensures var raw := EmptyInput.(title := Sent(title), priority := NullSent);
      var out := StoreOutcome(raw, today, now, db.categories.Keys, HasKey);
      && out.Ok? && out.value.priority == Null
      && TaskService.CreateTask(db, user, out.value, today, now, g) == Err(TaskService.NotNullViolation(Priority))
  {
  }

  /** With `filled()` the same request gets the default priority and is created. */
  lemma NullPriorityDefaulted(db: TaskService.Db, user: UserId, title: string, today: Date, now: Timestamp, g: Guard)
    requires TaskService.Valid(db)
    requires !Blank(title) && |title| <= MaxTitleLength
    ensures var raw := EmptyInput.(title := Sent(title), priority := NullSent);
      var out := StoreOutcome(raw, today, now, db.categories.Keys, FilledKey);
      && out.Ok? && out.value.priority == Given(DefaultPriority)
      && TaskService.CreateTask(db, user, out.value, today, now, g).Ok?
      && TaskService.CreateTask(db, user, out.value, today, now, g).value.1.priority == DefaultPriority
  {
    var raw := EmptyInput.(title := Sent(title), priority := NullSent);
    var out := StoreOutcome(raw, today, now, db.categories.Keys, FilledKey);
    TaskService.CreateTaskSpec(db, user, out.value, today, now, g);
  }

  // ---- UpdateTaskRequest -------------------------------------------------------

  /** The attributes of a patch that fail their rules. Every rule is
      `sometimes`, so an absent key is never checked, not even by the
      implicit `required_with`. */
  function UpdateErrors(i: Input, existing: set<CategoryId>): set<Attribute> {
    (if SometimesRule(i.title, (s: string) => |s| <= MaxTitleLength) then {} else {TitleKey})
    + (if SometimesRule(i.taskDate, (d: Date) => true) then {} else {TaskDateKey})
    + (if NullableRule(i.categoryId, (c: CategoryId) => c in existing) then {} else {CategoryKey})
    + (if SometimesRule(i.priority, PriorityInRange) then {} else {PriorityKey})
    + (if NullableRule(i.reminderAt, (t: Timestamp) => true) then {} else {ReminderAtKey})
    + (if SometimesRule(i.isDone, (b: bool) => true) then {} else {IsDoneKey})
    + (if NullableRule(i.recurrence, TaskService.IsRecurrenceUnit) then {} else {RecurrenceKey})
    + (if i.recurrenceEndsAt.Missing? || EndsAtRule(i) then {} else {RecurrenceEndsAtKey})
  }

  /** $request->validated() of a patch, as the array updateTask receives. */
  function UpdateData(i: Input): TaskData {
    TaskData(ToOption(i.title), ToOption(i.isDone), ToOption(i.taskDate), ToSlot(i.priority), ToSlot(i.categoryId),
             ToSlot(i.reminderAt), ToSlot(i.recurrence), ToSlot(i.recurrenceEndsAt), Absent)
  }

  datatype Rejection = Forbidden | Invalid(errors: set<Attribute>)

  /** The whole update request: authorize() is the `update` ability of the
      routed task, which the task policy answers (`allowed`); it is asked
      before the rules run. */
  function UpdateOutcome(allowed: bool, patch: Input, existing: set<CategoryId>): (r: Result<TaskData, Rejection>)
    ensures r == Err(Forbidden) <==> !allowed
  {
    if !allowed then Err(Forbidden)
    else
      var errors := UpdateErrors(patch, existing);
      if errors == {} then Ok(UpdateData(patch)) else Err(Invalid(errors))
  }

  /** An empty patch is valid and changes nothing: the row is not even saved. */
  lemma EmptyPatchIsNoOp(db: TaskService.Db, id: TaskId, now: Timestamp, g: Guard)
    requires id in db.tasks
    ensures UpdateOutcome(true, EmptyInput, db.categories.Keys) == Ok(NoData)
    ensures TaskService.UpdateTask(db, id, NoData, now, g) == Ok((db, db.tasks[id]))
  {
    assert Fill(db.tasks[id], NoData, g) == db.tasks[id];
    assert db.tasks[id := db.tasks[id]] == db.tasks;
  }

  /** A past date is refused by a store request but accepted in a patch. */
  lemma PastDateOnlyPatched(today: Date, now: Timestamp, existing: set<CategoryId>)
    ensures UpdateOutcome(true, EmptyInput.(taskDate := Sent(PrevDay(today))), existing)
            == Ok(NoData.(taskDate := Some(PrevDay(today))))
    ensures StoreOutcome(EmptyInput.(title := Sent("Test Task"), taskDate := Sent(PrevDay(today))),
                         today, now, existing, HasKey).Err?
  {
    StorePastDateRefused(EmptyInput.(title := Sent("Test Task"), taskDate := Sent(PrevDay(today))),
                         today, now, existing, HasKey);
    assert Before(PrevDay(today), today);
  }

  /** Because `sometimes` skips the implicit `required_with` on an absent
      key, a patch may set a recurrence without an end date. */
  lemma PatchRecurrenceWithoutEnd(existing: set<CategoryId>)
    ensures UpdateOutcome(true, EmptyInput.(recurrence := Sent("daily")), existing)
            == Ok(NoData.(recurrence := Given("daily")))
  {
  }

  /** A patch that sets a recurrence (any non-blank value, or a value that
      is not a string) and names the end date as null is refused on the end
      date; leaving the end date out of the patch is not. */
  lemma PatchRecurrenceWithNullEnd(patch: Input, existing: set<CategoryId>)
    requires FilledText(patch.recurrence)
    ensures patch.recurrenceEndsAt.NullSent? ==>
              UpdateOutcome(true, patch, existing).Err?
              && UpdateOutcome(true, patch, existing).error.Invalid?
              && RecurrenceEndsAtKey in UpdateOutcome(true, patch, existing).error.errors
    ensures patch.recurrenceEndsAt.Missing? ==> RecurrenceEndsAtKey !in UpdateErrors(patch, existing)
  {
  }

  /** A null for a `sometimes` key without `nullable` (title, date, priority,
      done flag) is refused on that key, whatever else the patch holds. */
  lemma PatchNullRefused(patch: Input, existing: set<CategoryId>)
    requires patch.title.NullSent? || patch.taskDate.NullSent? || patch.priority.NullSent? || patch.isDone.NullSent?
    ensures UpdateOutcome(true, patch, existing).Err? && UpdateOutcome(true, patch, existing).error.Invalid?
    ensures var errors := UpdateOutcome(true, patch, existing).error.errors;
      && (patch.title.NullSent? ==> TitleKey in errors)
      && (patch.taskDate.NullSent? ==> TaskDateKey in errors)
      && (patch.priority.NullSent? ==> PriorityKey in errors)
      && (patch.isDone.NullSent? ==> IsDoneKey in errors)
  {
  }

  /** A valid patch whose category (if given) belongs to the owner is
      applied, and a row that met the row rules still meets them. */
  lemma UpdateKeepsRowRules(db: TaskService.Db, id: TaskId, patch: Input, now: Timestamp, g: Guard)
    requires TaskService.Valid(db) && id in db.tasks
    requires UpdateOutcome(true, patch, db.categories.Keys).Ok?
    requires patch.categoryId.Sent? ==> TaskService.OwnsCategory(db, db.tasks[id].userId, patch.categoryId.value)
    requires RowRules(db.tasks[id])
    ensures var data := UpdateOutcome(true, patch, db.categories.Keys).value;
      && TaskService.UpdateTask(db, id, data, now, g).Ok?
      && RowRules(TaskService.UpdateTask(db, id, data, now, g).value.1)
  {
    var data := UpdateData(patch);
    TaskService.UpdateTaskSpec(db, id, data, now, g);
    var t := db.tasks[id];
    TaskService.SaveFillSpec(t, data, now, g);
    var t' := TaskService.UpdateTask(db, id, data, now, g).value.1;
    assert Holds(t', data, Title) && Holds(t', data, Priority);
    assert Title !in Fillable(g) || !Names(data, Title) ==> SameColumn(t', t, Title);
    assert Priority !in Fillable(g) || !Names(data, Priority) ==> SameColumn(t', t, Priority);
    if Recurrence in Fillable(g) {
      assert Holds(t', data, Recurrence);
    } else {
      assert SameColumn(t', t, Recurrence);
    }
  }
}

# BLACKTASK task core in Dafny

BLACKTASK is a daily to-do application written with Laravel and a small
jQuery front end. This project models its core and proves properties of that
model:

- the task row and Eloquent's mass assignment through `$fillable`
  (`TaskModel`);
- the task service's write operations as functions on a database snapshot
  (`TaskService`), and the same operations as in-place methods on a table
  object (`TaskStore.TaskTable`);
- its read-only queries: tasks of a date, overdue tasks, upcoming tasks and
  statistics (`TaskQueries`);
- recurrence, i.e. spawning the next occurrence when a recurring task is
  completed, built on a proleptic Gregorian calendar with Carbon's and luxon's
  month-arithmetic rules (`Calendar`);
- the two form requests that validate input for creating and updating tasks
  (`Requests`);
- the `reminders:send` console command (`Reminders`);
- the notification fan-out over the user's channels (`Notifications`);
- the reminder and daily digest mails (`Mail`);
- the Telegram deep-link webhook, setup link and disconnect action
  (`Telegram`);
- the `.env` upsert of the VAPID key generator (`EnvFile`);
- from the browser script `taskManager.js`: HTML escaping, trimming, and the
  natural-language date parser of the add-task box (`TaskManager`);
- `Text`: string helpers mirroring PHP's `explode`, `implode`,
  `str_replace` and decimal parsing.

Modelling choices:

- The clock, the database's choice of ids beyond the auto-increment counter,
  and every outside service are parameters.
- A delivery that throws is modelled as membership in a `throws` set.
- The authorisation policy is modelled as a boolean `allowed`.
- The task model has two `$fillable` lists:
  - `AsWritten` is the list in `app/Models/Task.php`;
  - `Intended` also lists the recurrence and reminder columns that the rest
    of the code writes.

  Every theorem about the service says which of the two it holds for. See
  "## Findings".
- Where the code and its documented intent differ, the model follows the
  code; the intent is the `Intended` case, or a lemma that exhibits the
  difference:
  - the reminder command re-sends every reminder on every run, because
    `reminded_at` is not fillable;
  - a patch that sets a recurrence without naming an end date is accepted
    (`Requests.PatchRecurrenceWithoutEnd`).

## Model

| member | source | states |
|---|---|---|
| TaskModel.Fillable | app/Models/Task.php:14-23 | The shipped list always allows title, owner, done flag, date, reminder, category and priority. It never allows recurrence, its end date or reminded_at. The intended list allows all three. |
| TaskModel.FillWritesExactlyFillable | app/Models/Task.php:14-23 | Mass assignment writes a fillable column that the data names. It leaves a non-fillable or unnamed column, the key, the owner and the timestamps unchanged. It states the behaviour of `TaskModel.Fill`. |
| TaskModel.AsWrittenDropsRecurrenceAndReminded | app/Models/Task.php:14-23 | With the shipped list, fill never changes recurrence, recurrence_ends_at or reminded_at, whatever the data says. |
| TaskModel.IntendedKeepsRecurrenceAndReminded | app/Models/Task.php:14-23 | With the intended list, those three columns take the values the data gives them. |
| TaskModel.Replicate | app/Services/TaskService.php:117 | replicate() copies every column of the row. Only the key and the timestamps are new. |
| TaskModel.Pending | app/Notifications/DailyDigestNotification.php:45 | Holds exactly the tasks of the collection that are not done. Order and multiplicity are stated by the lemmas below. |
| TaskModel.Completed | app/Notifications/DailyDigestNotification.php:46 | Holds exactly the tasks of the collection that are done. Order and multiplicity are stated by the lemmas below. |
| TaskModel.PendingAppend | app/Notifications/DailyDigestNotification.php:50 | where('is_done', false) keeps collection order: the pending tasks of a + b are those of a, then those of b. |
| TaskModel.CompletedAppend | app/Notifications/DailyDigestNotification.php:46 | where('is_done', true) keeps collection order in the same way. |
| TaskModel.FilterSingleton | app/Notifications/DailyDigestNotification.php:45-46 | A single task is pending exactly when it is not done, and completed exactly when it is. With the two append lemmas this fixes both filters completely. |
| TaskModel.FilterMultiplicity | app/Notifications/DailyDigestNotification.php:45-46 | A not-done task occurs among the pending tasks exactly as often as in the collection, and a done task not at all. The completed tasks mirror this. |
| TaskModel.PendingCount | app/Notifications/DailyDigestNotification.php:45 | The pending count is the number of positions of the collection holding a task that is not done. |
| TaskModel.CompletedCount | app/Notifications/DailyDigestNotification.php:46 | The completed count is the number of positions holding a done task. |
| TaskModel.PendingPlusCompleted | app/Notifications/DailyDigestNotification.php:44-46 | The pending count plus the completed count is the total count. |
| TaskService.CreateTaskSpec | app/Services/TaskService.php:36-52 | createTask fails exactly in three cases: a category the user does not own, no title, or an explicit null priority. The category case is the "does not belong to user" error. On success, one row is inserted under the next id, owned by the user. Its date is the given date or today. Its priority is the given one or 1. Its category and reminder are as given, and both timestamps are now. |
| TaskService.CreateTaskRecurrence | app/Services/TaskService.php:51 | With the shipped guard, a created task never recurs, whatever recurrence was posted. With the intended guard, it keeps the posted recurrence and end date. |
| TaskService.CreateTaskKeepsValid | app/Services/TaskService.php:36-52 | Creating a task keeps the table consistent: keys match rows, the counter is past every key, every category belongs to the task's owner. |
| TaskService.CreateTask | app/Services/TaskService.php:36-52 | createTask on a database snapshot. Its outcome is stated by CreateTaskSpec and CreateTaskRecurrence, and CreateTaskKeepsValid shows it keeps the table consistent. |
| TaskService.SaveFillSpec | app/Services/TaskService.php:67 | update() leaves the fillable named columns holding the data and every other column untouched. The key, owner and created_at are kept. A row in which nothing changed is not written. A changed row gets updated_at = now. It states the behaviour of `TaskService.Save`. |
| TaskService.UpdateTaskSpec | app/Services/TaskService.php:57-69 | updateTask fails exactly when it names a category the owner does not have, or sends a null priority. The category case is the "does not belong to user" error. On success, only that row changes, and fresh() returns the saved row. |
| TaskService.UpdateNullCategory | app/Services/TaskService.php:60-65 | A null category_id skips the ownership check and clears the task's category. |
| TaskService.UpdateTaskRecurrence | app/Services/TaskService.php:67 | With the shipped guard, an update never changes recurrence or its end. With the intended guard, it sets both to the data's values. |
| TaskService.UpdateTaskKeepsValid | app/Services/TaskService.php:57-69 | A successful update keeps the table consistent. |
| TaskService.UpdateTask | app/Services/TaskService.php:57-69 | updateTask on a database snapshot. Its outcome is stated by UpdateTaskSpec, SaveFillSpec, UpdateNullCategory and UpdateTaskRecurrence. |
| TaskService.AdvanceSpec | app/Services/TaskService.php:121-127 | The match yields a date exactly for daily, weekly, monthly and yearly, and that date is strictly later. Any other value yields none. It states the behaviour of `TaskService.Advance`. |
| TaskService.NextOccurrenceSpec | app/Services/TaskService.php:121-136 | A next occurrence exists exactly when the recurrence is a known unit and any end date is on or after the advanced date. isAfter is strict, so an end date equal to the next date still spawns. The occurrence is strictly after the task date. It states the behaviour of `TaskService.NextOccurrence`. |
| TaskService.CreateRecurringTask | app/Services/TaskService.php:115-142 | A copy is made exactly when the task has a next occurrence; otherwise the database is unchanged. The copy takes the next id and is stamped now. It is not done and is dated at the next occurrence. Every other column equals the original's, recurrence and its end included. It is stored under the new id, the counter moves past it, and every existing row and category is kept as it was. |
| TaskService.CreateRecurringKeepsValid | app/Services/TaskService.php:115-142 | Spawning the next occurrence of a task whose category is its owner's keeps the table consistent: keys match rows, the counter is past every key, and every category reference resolves to a category of the row's owner. |
| TaskService.ToggleIsUpdate | app/Services/TaskService.php:76-77 | The flip is exactly the update(['is_done' => !was]) of updateTask. It always succeeds. It sets the flag and updated_at and changes nothing else. |
| TaskService.ToggleFlips | app/Services/TaskService.php:74-85 | After a toggle, the done flag is inverted and the returned row is the stored row. |
| TaskService.ToggleSpawnsIff | app/Services/TaskService.php:80-82 | A toggle adds a row exactly when the task was pending and has a next occurrence. Otherwise the set of rows is unchanged. |
| TaskService.SpawnedCopy | app/Services/TaskService.php:117-139 | The spawned row is an undone replicate of the completed task, dated at its next occurrence, with the same recurrence and end. |
| TaskService.ToggleKeepsValid | app/Services/TaskService.php:74-85 | A toggle, with or without a spawn, keeps the table consistent. |
| TaskService.ToggleNoSpawn | app/Services/TaskService.php:80 | Re-opening a done task, or toggling a non-recurring one, never adds rows. |
| TaskService.ToggleTask | app/Services/TaskService.php:74-85 | toggleTask on a database snapshot. Its effect is stated by ToggleIsUpdate, ToggleFlips, ToggleSpawnsIff, SpawnedCopy and ToggleNoSpawn. |
| TaskService.CompleteAndSpawn | app/Services/TaskService.php:74-142 | Completing a pending recurring task marks that task done, inserts its successor under the next id and leaves every other row as it was. |
| TaskService.CompleteLast | app/Services/TaskService.php:129-136 | Completing the last occurrence of a series only marks it done. |
| TaskService.DailyStep | app/Services/TaskService.php:121-139 | One completion of a daily task inside its window adds the next day's copy and changes nothing else. |
| TaskService.DailySeriesEndsAfterThree | app/Services/TaskService.php:74-142 | A daily task that ends two days after its date, completed three times in a row, leaves exactly three done rows on consecutive days and no fourth. |
| TaskService.DailyLast | app/Services/TaskService.php:134-136 | A daily task dated on its end date has no next occurrence. |
| TaskService.DailyNext | app/Services/TaskService.php:121-136 | A daily task's next occurrence is the next day, unless the end date falls before it. |
| TaskService.MonthlyFromJanuaryThirtyFirst | app/Services/TaskService.php:124 | Carbon's addMonth overflows, so a monthly task of 2025-01-31 recurs on 2025-03-03. |
| TaskService.AdvanceMonthly | app/Services/TaskService.php:124 | Monthly recurrence is one month with day overflow. |
| TaskService.RescheduleSpec | app/Services/TaskService.php:90-94 | rescheduleTask is the update of task_date alone. It always succeeds. It moves only the date and returns the stored row. |
| TaskService.RescheduleToTomorrow | app/Services/TaskService.php:99-102 | The task lands on the day after today, which is strictly later than today. |
| TaskService.RescheduleKeepsValid | app/Services/TaskService.php:90-94 | A reschedule keeps the table consistent. |
| TaskService.RescheduleTask | app/Services/TaskService.php:90-94 | rescheduleTask on a database snapshot. RescheduleSpec shows it is the update of task_date alone. |
| TaskService.DeleteTask | app/Services/TaskService.php:107-110 | Deleting reports true, removes exactly that key and leaves every other row unchanged. |
| TaskService.DeleteTaskKeepsValid | app/Services/TaskService.php:107-110 | A deletion keeps the table consistent. |
| TaskService.DeleteCategorySpec | database/migrations/2025_12_16_000000_add_missing_columns_and_indexes_to_tasks.php:17 | nullOnDelete: after deleting a category, no task refers to it. Its tasks survive with their other columns intact, other tasks are untouched, and the table stays consistent. |
| TaskService.DeleteCategory | database/migrations/2025_12_16_000000_add_missing_columns_and_indexes_to_tasks.php:17 | Deleting a category with its nullOnDelete foreign key. Its effect is stated by DeleteCategorySpec. |
| TaskService.DeleteUserSpec | database/migrations/2025_08_06_101456_fix_tasks_user_id_relationship.php:24-25 | Cascading on user_id removes all of the user's tasks and categories, keeps everyone else's rows unchanged and keeps the table consistent. |
| TaskService.DeleteUser | database/migrations/2025_08_06_101456_fix_tasks_user_id_relationship.php:24-25 | Deleting a user with the cascading user_id foreign keys. Its effect is stated by DeleteUserSpec. |
| TaskStore.TaskTable.constructor | app/Services/TaskService.php:10-11 | A fresh table is empty and consistent beside the given categories. |
| TaskStore.TaskTable.Update | app/Services/TaskService.php:67 | In place, the row becomes the fill-and-save of the data, and nothing else in the table changes. A consistent table whose new category is the owner's stays consistent. |
| TaskStore.TaskTable.CreateTask | app/Services/TaskService.php:36-52 | In place, the table reaches the state of TaskService.CreateTask and keeps its invariant. A refusal leaves the table untouched. |
| TaskStore.TaskTable.UpdateTask | app/Services/TaskService.php:57-69 | In place, the table reaches the state of TaskService.UpdateTask and keeps its invariant. A refusal leaves it untouched. |
| TaskStore.TaskTable.CreateRecurringTask | app/Services/TaskService.php:115-142 | In place, the table reaches the state of TaskService.CreateRecurringTask and stays consistent. It asks that the original's category belong to its owner, which holds for every row of a consistent table. |
| TaskStore.TaskTable.ToggleTask | app/Services/TaskService.php:74-85 | In place, the table reaches the state of TaskService.ToggleTask and keeps its invariant. |
| TaskStore.TaskTable.RescheduleTask | app/Services/TaskService.php:90-94 | In place, the table reaches the state of TaskService.RescheduleTask and keeps its invariant. |
| TaskStore.TaskTable.RescheduleToTomorrow | app/Services/TaskService.php:99-102 | In place, the row moves to the day after today, as TaskService.RescheduleToTomorrow computes. |
| TaskStore.TaskTable.DeleteTask | app/Services/TaskService.php:107-110 | In place, the row is removed, as TaskService.DeleteTask computes, and the invariant holds. |
| TaskQueries.SortedKeys | app/Services/TaskService.php:17-22 | The table's keys, each exactly once, in ascending order. SQL fixes no row order before orderBy; scanning in key order is a modelling choice, and it decides ties in the queries and the order of the reminder sweep. |
| TaskQueries.Select | app/Services/TaskService.php:17-22 | A where-filter returns exactly the rows that satisfy the condition, one row per matching key, in ascending key order. Its length is the number of matching keys. |
| TaskQueries.KeepSplit | app/Services/TaskService.php:159-161 | The rows matching a scope split into done and pending rows, and the two counts add up. |
| TaskQueries.Insert | app/Services/TaskService.php:20-21 | Inserting into an ordered list keeps it ordered and adds exactly that row. |
| TaskQueries.Sort | app/Services/TaskService.php:20-21 | orderBy yields an ordered permutation of the selected rows. |
| TaskQueries.SortSameElements | app/Services/TaskService.php:20-21 | Sorting neither drops nor invents rows. |
| TaskQueries.TasksForDate | app/Services/TaskService.php:15-23 | Exactly the user's tasks on that date, each matching row once (a permutation of the filtered rows), by priority descending, then newest first. It states the behaviour of `TaskQueries.ForDate`. |
| TaskQueries.TodaysTasks | app/Services/TaskService.php:28-31 | Exactly the user's tasks dated today, each matching row once, in the same order. |
| TaskQueries.OverdueTasks | app/Services/TaskService.php:175-183 | Exactly the user's pending tasks dated before today, each matching row once, by date ascending. It states the behaviour of `TaskQueries.IsOverdue`. |
| TaskQueries.UpcomingTasks | app/Services/TaskService.php:188-196 | Exactly the user's pending tasks dated from tomorrow through today plus the given number of days, each matching row once, by date ascending. It states the behaviour of `TaskQueries.IsUpcoming`. |
| TaskQueries.UpcomingEmptyForShortWindow | app/Services/TaskService.php:193 | A window of fewer than one day has an empty between-range and returns nothing. |
| TaskQueries.QueriesPartitionPending | app/Services/TaskService.php:175-196 | A pending task is overdue exactly when it is dated before today, and is today's exactly when dated today. It is never both overdue and upcoming, and never both today's and upcoming. |
| TaskQueries.CompletionRate | app/Services/TaskService.php:162 | In hundredths of a percent: 0 for no tasks. Otherwise completed/total × 100 rounded half up to two decimals, and at most 100% when completed ≤ total. |
| TaskQueries.CompletionRateExamples | app/Services/TaskService.php:162 | 3 of 4 gives 75.00, 1 of 3 gives 33.33, 2 of 3 gives 66.67, 1 of 8 gives 12.50 and 1 of 32 gives 3.13. |
| TaskQueries.ScopeCounts | app/Services/TaskService.php:149-161 | The three counted queries of getTaskStatistics count the matching keys, and the done and pending counts add up to the total. |
| TaskQueries.TaskStatistics | app/Services/TaskService.php:147-170 | total is the number of the user's tasks whose date lies inside the optional inclusive bounds; completed and pending are the numbers of those that are done and not done. They satisfy pending = total − completed, and the rate is CompletionRate of the counts. |
| Calendar.DaysInMonth | app/Services/TaskService.php:122-125 | Every month has between 28 and 31 days. |
| Calendar.NextDay | app/Services/TaskService.php:122 | Carbon's addDay gives the earliest date strictly after the given one. |
| Calendar.PrevDay | app/Http/Requests/StoreTaskRequest.php:26 | The day before is the date whose next day is the given date. |
| Calendar.PrevNextDay | app/Http/Requests/StoreTaskRequest.php:26 | Going a day forward and back returns the same date. |
| Calendar.AddDays | app/Services/TaskService.php:122-123 | Carbon addDays by single steps. AddDaysForward, AddDaysAdditive and AddDaysInMonth state its behaviour. |
| Calendar.AddDaysForward | app/Services/TaskService.php:123 | Adding a positive number of days (addWeek adds 7) moves strictly forward. |
| Calendar.AddDaysAdditive | app/Services/TaskService.php:193 | Adding a days and then b days is adding a + b days. |
| Calendar.AddDaysInMonth | app/Services/TaskService.php:193 | Days added within the month only raise the day of the month. |
| Calendar.ShiftMonth | app/Services/TaskService.php:124-125 | Shifting by n months moves the month index by exactly n and keeps the month in 1..12. |
| Calendar.AddMonthsOverflow | app/Services/TaskService.php:124 | Carbon addMonths with overflow. AddMonthsOverflowCountsDays, OverflowIntoNextMonth and AddMonthsOverflowForward state its behaviour. |
| Calendar.AddYearsOverflow | app/Services/TaskService.php:125 | Carbon addYear, as twelve overflowing months. JanuaryThirtyFirstPlusMonth gives 2024-02-29 plus a year as 2025-03-01. |
| Calendar.AddMonthsClamp | resources/js/components/taskManager.js:145 | luxon plus({months}), clamping to the month's last day. MonthRulesAgree and MonthRulesDiffer compare it with the overflow rule. |
| Calendar.AddMonthsOverflowCountsDays | app/Services/TaskService.php:124 | Carbon's addMonth with overflow is the first of the target month, plus the original day minus one. |
| Calendar.OverflowIntoNextMonth | app/Services/TaskService.php:124 | Overflowing past the last day of a month by 1 to 3 days lands on those days of the following month. |
| Calendar.AddMonthsOverflowForward | app/Services/TaskService.php:124-125 | Adding one or more months (addYear adds 12) moves strictly forward. |
| Calendar.MonthRulesAgree | resources/js/components/taskManager.js:145 | When the day exists in the target month, luxon's clamping plus({months}) and Carbon's overflowing addMonth agree and keep the day. |
| Calendar.MonthRulesDiffer | resources/js/components/taskManager.js:145 | When the day does not exist, luxon clamps to the last day of the target month, and Carbon lands strictly later. |
| Calendar.JanuaryThirtyFirstPlusMonth | app/Services/TaskService.php:124-125 | Worked cases: 2025-01-31 plus a month gives 2025-03-03 on the server and 2025-02-28 in the browser. 2024-02-29 plus a year gives 2025-03-01. |
| Calendar.DayOfWeek | app/Notifications/TaskReminderNotification.php:52 | The weekday for the `l` format code is always in 0..6. |
| Calendar.DayOfWeekNextDay | app/Notifications/TaskReminderNotification.php:52 | The weekday of the next day is the following weekday, every month and year included. |
| Calendar.NewYear2025 | app/Notifications/TaskReminderNotification.php:52 | 2025-01-01 is a Wednesday. |
| Calendar.ParseDateString | app/Http/Requests/StoreTaskRequest.php:61 | A date string that parses has the form YYYY-MM-DD. |
| Calendar.ParseToDateString | app/Http/Requests/StoreTaskRequest.php:61 | toDateString() reads back to the same date for every year 0..9999. |
| Calendar.ToDateString | app/Services/NotificationService.php:226 | toDateString(), Y-m-d. ParseDateString and ParseToDateString show it reads back to the date. |
| Calendar.FormatShort | app/Notifications/DailyDigestNotification.php:41 | format('M j, Y'). FormatExamples gives a worked value. |
| Calendar.FormatLong | app/Notifications/TaskReminderNotification.php:52 | format('l, F j, Y'). FormatExamples gives a worked value. |
| Calendar.FormatExamples | app/Notifications/TaskReminderNotification.php:52 | 2025-01-01 formats as "Jan 1, 2025" in the short form and "Wednesday, January 1, 2025" in the long form. |
| Requests.Prepared | app/Http/Requests/StoreTaskRequest.php:56-71 | prepareForValidation gives today to a task_date that is missing, and priority 1 to a missing priority. With has(), an explicit null is not missing. With filled(), a null is also defaulted. Every other key is kept. |
| Requests.StoreErrors | app/Http/Requests/StoreTaskRequest.php:22-33 | The store rules as the set of failing attributes. AcceptedStoreInput states what an empty set means, and EmptyStoreRefused, StorePriorityOutOfRangeRefused, StorePastDateRefused and StoreRecurrenceNeedsEnd state the refusals. |
| Requests.StoreData | app/Http/Requests/StoreTaskRequest.php:22-33 | The validated array of a store request. StoreAcceptedRow states the row createTask inserts from it. |
| Requests.StoreOutcome | app/Http/Requests/StoreTaskRequest.php:22-71 | A store request as a whole: defaults, then rules. DefaultsPass, EmptyStoreRefused and StoreAcceptedRow state its results. |
| Requests.StoreTaskRequest.constructor | app/Http/Requests/StoreTaskRequest.php:7 | The request starts with the raw input. |
| Requests.StoreTaskRequest.PrepareForValidation | app/Http/Requests/StoreTaskRequest.php:56-71 | In place, the input becomes the prepared input. |
| Requests.DefaultsPass | app/Http/Requests/StoreTaskRequest.php:56-71 | The merged defaults never fail their own rules, and they reach the validated data. |
| Requests.EmptyStoreRefused | app/Http/Requests/StoreTaskRequest.php:25 | An empty payload is refused, on the title and nothing else. |
| Requests.StorePriorityOutOfRangeRefused | app/Http/Requests/StoreTaskRequest.php:28-70 | For every input, today and either default mode, the priority rule fails exactly when the priority sent is not an integer or an integer outside 0..2; a missing priority is defaulted and a null passes `nullable`. Such a request is refused with priority among its errors. |
| Requests.StorePastDateRefused | app/Http/Requests/StoreTaskRequest.php:26-63 | For every input, today and either default mode, the task_date rule fails exactly when the date sent is not a date or is before today; a missing date becomes today and a null passes `nullable`. Such a request is refused with task_date among its errors. |
| Requests.StoreRecurrenceNeedsEnd | app/Http/Requests/StoreTaskRequest.php:30-31 | A recurring task with no end date, a null end date, or an end date not after its date is refused on recurrence_ends_at. |
| Requests.AcceptedStoreInput | app/Http/Requests/StoreTaskRequest.php:22-33 | Input that passes every rule has a non-blank title of at most 255 characters. Its date is not in the past, its category exists and its priority is in 0..2. Its reminder is after now. A recurrence is a known unit with an end date after the task date. |
| Requests.StoreAcceptedRow | app/Http/Requests/StoreTaskRequest.php:22-71 | A validated store request whose category is the user's own is created by the service, unless its priority is an explicit null under has(). The row has a valid title and priority, is dated today or later, has a future reminder, and any recurrence ends after the date. |
| Requests.NullPriorityAcceptedThenRefused | app/Http/Requests/StoreTaskRequest.php:28-70 | As written, an explicit null priority passes validation and then fails the insert on the NOT NULL priority column. |
| Requests.NullPriorityDefaulted | app/Http/Requests/StoreTaskRequest.php:66-70 | When a null also counts as missing, the same request gets priority 1 and is created. |
| Requests.UpdateOutcome | app/Http/Requests/UpdateTaskRequest.php:12-16 | The request is forbidden exactly when the policy denies the update, before any rule runs. |
| Requests.UpdateErrors | app/Http/Requests/UpdateTaskRequest.php:23-34 | The sometimes-rules of a patch as the set of failing attributes. EmptyPatchIsNoOp, PastDateOnlyPatched, PatchRecurrenceWithoutEnd, PatchRecurrenceWithNullEnd and PatchNullRefused state its cases. |
| Requests.UpdateData | app/Http/Requests/UpdateTaskRequest.php:23-34 | The validated array of a patch. UpdateKeepsRowRules states what applying it keeps. |
| Requests.EmptyPatchIsNoOp | app/Http/Requests/UpdateTaskRequest.php:23-34 | An empty patch is valid and leaves the database exactly as it was, without even a new updated_at. |
| Requests.PastDateOnlyPatched | app/Http/Requests/UpdateTaskRequest.php:27 | A past date is accepted in a patch while a store request refuses it. |
| Requests.PatchRecurrenceWithoutEnd | app/Http/Requests/UpdateTaskRequest.php:32-33 | A patch may set a recurrence with no end date, because `sometimes` skips required_with for an absent key. |
| Requests.PatchRecurrenceWithNullEnd | app/Http/Requests/UpdateTaskRequest.php:32-33 | For every patch that sets a recurrence: a null end date is refused with recurrence_ends_at among the errors, and an absent end date never fails that rule. |
| Requests.PatchNullRefused | app/Http/Requests/UpdateTaskRequest.php:26-31 | Every patch that sends a null title, task_date, priority or is_done is refused, whatever else it holds, and each key sent as null is among the errors, because those rules are `sometimes` without `nullable`. |
| Requests.UpdateKeepsRowRules | app/Http/Requests/UpdateTaskRequest.php:23-34 | A valid patch with an owned category is applied by the service. A row with a valid title, priority and recurrence unit keeps them valid. |
| Reminders.DueIds | app/Console/Commands/SendTaskReminders.php:16-20 | Exactly the ids of pending tasks whose reminder time has come and that were not reminded yet, ascending. It states the behaviour of `Reminders.Due`. |
| Reminders.Successes | app/Console/Commands/SendTaskReminders.php:26-28 | The ids whose notification did not throw. Order and count are stated by the lemmas below. |
| Reminders.Failures | app/Console/Commands/SendTaskReminders.php:29-31 | The ids whose notification threw. Order and count are stated by the lemmas below. |
| Reminders.SuccessesAppend | app/Console/Commands/SendTaskReminders.php:24-28 | Successes keeps the loop's order: the successes of a + b are those of a followed by those of b. |
| Reminders.FailuresAppend | app/Console/Commands/SendTaskReminders.php:24-31 | Failures keeps the loop's order in the same way. |
| Reminders.OutcomeCounts | app/Console/Commands/SendTaskReminders.php:24-32 | Successes holds one id per position whose notification did not throw, Failures one per position whose notification threw. |
| Reminders.IncreasingSuccessCount | app/Console/Commands/SendTaskReminders.php:28 | Over ids without repeats, the count of successes is the number of distinct ids whose notification did not throw. |
| Reminders.DueSuccessCount | app/Console/Commands/SendTaskReminders.php:16-28 | The final count is the number of due tasks whose notification did not throw. |
| Reminders.SuccessesPlusFailures | app/Console/Commands/SendTaskReminders.php:24-32 | Every due task is counted as exactly one success or one failure. |
| Reminders.MarkAll | app/Console/Commands/SendTaskReminders.php:27 | Marking reminded tasks never adds or removes rows. It states the behaviour of `Reminders.Mark`. |
| Reminders.MarkAllKeepsValid | app/Console/Commands/SendTaskReminders.php:27 | Marking reminded tasks keeps the table consistent under either fillable list: keys, owners and categories are untouched. |
| Reminders.RemindOne | app/Console/Commands/SendTaskReminders.php:25-31 | One iteration runs the update on success and skips it on a throw. Nothing besides the tasks changes. The table stays consistent. |
| Reminders.RemindAll | app/Console/Commands/SendTaskReminders.php:22-32 | The loop counts the successes and lists the failures in order, and leaves the table as the successive updates compute. The table stays consistent. |
| Reminders.SendTaskReminders | app/Console/Commands/SendTaskReminders.php:14-36 | The command notifies exactly the due tasks. Its count is the number of due tasks whose notification did not throw, and the count plus the failures is the number notified. Only the successes are updated. It always exits with SUCCESS. The table stays consistent. |
| Reminders.AsWrittenMarksNothing | app/Console/Commands/SendTaskReminders.php:27 | With the shipped guard, the update of reminded_at changes no row. |
| Reminders.AsWrittenResendsReminders | app/Console/Commands/SendTaskReminders.php:16-27 | As written, a later run selects every task it selected before, successes included. |
| Reminders.IntendedMarksReminded | app/Console/Commands/SendTaskReminders.php:27 | With the intended guard, each success gets reminded_at = now and nothing but that column and updated_at changes. |
| Reminders.IntendedRetriesOnlyFailures | app/Console/Commands/SendTaskReminders.php:16-27 | With the intended guard, a successful task is never selected again, and a failed one stays due. |
| Notifications.ChannelNameInjective | app/Services/NotificationService.php:23-72 | The reported channel names are distinct. |
| Notifications.If | app/Services/NotificationService.php:19-80 | A channel is appended exactly when its condition holds. |
| Notifications.ReportedChannels | app/Services/NotificationService.php:17-83 | A channel is reported exactly when it is enabled and (for the three phone channels) a phone is set, and its delivery (except the browser) did not throw. Push and Telegram are never reported. It states the behaviour of `Notifications.Reported`. |
| Notifications.ReportedInOrder | app/Services/NotificationService.php:17-83 | Channels are reported in the fixed order browser, email, WhatsApp, SMS, GekyChat. |
| Notifications.TriedChannels | app/Services/NotificationService.php:26-80 | A delivery is attempted exactly on the enabled, reachable channels, in that order. It states the behaviour of `Notifications.Tried`. |
| Notifications.Deliver | app/Services/NotificationService.php:27-80 | One try/catch block appends the channel to the result only if it was attempted and did not throw. |
| Notifications.SendTaskReminder | app/Services/NotificationService.php:17-83 | The result is the reported channels, and the attempts are the tried channels. |
| Notifications.SendDailyDigest | app/Services/NotificationService.php:88-112 | No tasks gives nothing. Otherwise email is the only possible result, and it is reported exactly when email is enabled and the send did not throw. |
| Notifications.PriorityText | app/Services/NotificationService.php:204-212 | 0 reads Low, 2 reads High, and every other value reads Medium. |
| Notifications.BrowserNotificationPayload | app/Services/NotificationService.php:217-240 | The payload's title is the reminder banner, and its body is the task title. Icon and badge are the favicon. It carries the task id and priority and a due date that reads back to the task date. Its actions are exactly complete ("Mark Complete") then view ("View Task"). |
| Mail.DigestCounts | app/Notifications/DailyDigestNotification.php:81-88 | Counts all tasks, the positions holding a not-done task and the positions holding a done task. The last two add up to the first. |
| Mail.PendingLines | app/Notifications/DailyDigestNotification.php:50-68 | The strings the foreach hands to line(): the first ten pending tasks with their priority dot, then a "... and n more" line if there are more. Otherwise a single all-done line. |
| Mail.Filed | app/Notifications/DailyDigestNotification.php:43-71 | MailMessage::line() on each string: one line out per line in. FiledAt states each line is the FormatLine of its input. |
| Mail.FiledAt | app/Notifications/TaskReminderNotification.php:50-61 | Line i of the mail is FormatLine of the i-th string handed to line(). |
| Mail.FiledAppend | app/Notifications/TaskReminderNotification.php:50-56 | Filing the lines of two successive calls is filing each and concatenating, in order. |
| Mail.FiledPlain | app/Notifications/DailyDigestNotification.php:43-48 | Strings with no line break and no white space at either end are shown exactly as written. |
| Mail.FiledListing | app/Notifications/DailyDigestNotification.php:50-68 | As the mail shows them, the listing is each task line formatted by line(), then the count line and the all-done line exactly as written. |
| Mail.TaskLineFiled | app/Notifications/DailyDigestNotification.php:60 | A task line whose title has no line break and ends in a visible character is shown exactly as written. |
| Mail.DigestHeaderFiled | app/Notifications/DailyDigestNotification.php:43-48 | The six header lines, counts included, are shown exactly as written. |
| Mail.DigestOutroFiled | app/Notifications/DailyDigestNotification.php:71 | The sign-off is shown exactly as written. |
| Mail.MoreLineFiled | app/Notifications/DailyDigestNotification.php:64 | The "... and n more tasks" line is shown exactly as written, for every n. |
| Mail.AllDoneFiled | app/Notifications/DailyDigestNotification.php:67 | The all-done line is shown exactly as written. |
| Mail.DigestMail | app/Notifications/DailyDigestNotification.php:38-74 | The subject, with the short date, and the greeting. Every string goes through line(): the six header lines are shown as written, then the pending listing of at most eleven lines with each task line formatted by line(), then the dashboard action and the sign-off as written. |
| Mail.PriorityDot | app/Notifications/DailyDigestNotification.php:54-59 | The dot of a pending task's priority. DigestDots states the mapping. |
| Mail.TaskLine | app/Notifications/DailyDigestNotification.php:60 | The line of one pending task. DigestDots states its shape. |
| Mail.DigestDots | app/Notifications/DailyDigestNotification.php:54-60 | Priorities 2, 1 and 0 get three different dots, and every other value gets the white dot. A listed task reads as its dot, a space and its title. |
| Mail.ReminderPriorityLabel | app/Notifications/TaskReminderNotification.php:40-45 | 0, 1 and 2 get their dot and name. Any other value reads "Medium Priority" without a dot. |
| Mail.ReminderMail | app/Notifications/TaskReminderNotification.php:47-63 | Subject and greeting, then four lines as line() files them: the intro, the title line formatted, the long-form due date and the priority as written. A fifth category line, formatted, appears exactly when the task has a category. Then the action and the two outro lines as written. |
| Mail.ReminderLinesFiled | app/Notifications/TaskReminderNotification.php:50-57 | The lines before the button, as line() files them: four, or five with a category; the intro, due date and priority kept, the title and category lines formatted. |
| Mail.ReminderHeadFiled | app/Notifications/TaskReminderNotification.php:50-53 | Of the four fixed lines only the task line is changed by line(). |
| Mail.ReminderIntroFiled | app/Notifications/TaskReminderNotification.php:50 | The intro is shown exactly as written. |
| Mail.ReminderOutroFiled | app/Notifications/TaskReminderNotification.php:60-61 | Both outro lines are shown exactly as written. |
| Mail.DueDateLineFiled | app/Notifications/TaskReminderNotification.php:52 | The due-date line is shown exactly as written, for every date. |
| Mail.PriorityLineFiled | app/Notifications/TaskReminderNotification.php:40-53 | The priority line is shown exactly as written, for every priority. |
| Mail.ReminderTextFiled | app/Notifications/TaskReminderNotification.php:51-56 | A title or category name with no line break that ends in a visible character is shown exactly as written. |
| Mail.ReminderArray | app/Notifications/TaskReminderNotification.php:71-79 | The array carries the task id, title and priority, and a due date that reads back to the task date. |
| Mail.ReminderArrayMatchesPayload | app/Notifications/TaskReminderNotification.php:76 | The mail array and the browser payload carry the same due date and task id. |
| Telegram.StartRoundTrip | app/Http/Controllers/TelegramController.php:27-33 | The command that a user's deep link sends is parsed back to exactly that user's id. |
| Telegram.ParseCommand | app/Http/Controllers/TelegramController.php:27-33 | The /start parsing of the webhook. StartRoundTrip, DoubledPrefix, BareStart and LongerCommandWord state its cases. |
| Telegram.DoubledPrefix | app/Http/Controllers/TelegramController.php:31 | str_replace removes every "setup_", so "setup_setup_<id>" names the same user. |
| Telegram.BareStart | app/Http/Controllers/TelegramController.php:27-47 | A bare "/start" is a start command without a target, which gets the welcome text. |
| Telegram.LongerCommandWord | app/Http/Controllers/TelegramController.php:27 | Only a prefix is checked, so "/started setup_<id>" links too. |
| Telegram.Setup | app/Http/Controllers/TelegramController.php:57-77 | A link is produced exactly when the bot info has a username. The link starts with the t.me base for that bot, and its parameter, sent back as a start command, names the signed-in user. |
| Telegram.DisconnectIdempotent | app/Http/Controllers/TelegramController.php:82-95 | Disconnecting twice equals disconnecting once. It undoes a connect and touches only the two Telegram columns. |
| Telegram.UserDirectory.constructor | app/Http/Controllers/TelegramController.php:33 | The directory starts with the given users, keyed by their ids. |
| Telegram.UserDirectory.Webhook | app/Http/Controllers/TelegramController.php:15-52 | The status is "connected" exactly when the message is a start command naming an existing user. In that case only that user gets the chat id and the Telegram flag, and the success text is sent. Any other start command gets the welcome text and changes nothing. Anything else returns "ok", changes nothing and sends nothing. |
| Telegram.UserDirectory.Disconnect | app/Http/Controllers/TelegramController.php:82-95 | In place, the user's chat id is cleared and the flag turned off. Nobody else changes, and the answer is success. |
| EnvFile.ReplaceAssignments | app/Console/Commands/GenerateVapidKeys.php:75-79 | With the multi-line pattern, every line that starts with KEY= becomes KEY=value, and every other line is kept. |
| EnvFile.UpdateEnvValueLines | app/Console/Commands/GenerateVapidKeys.php:73-86 | If some line assigns the key, the lines are rewritten in place. Otherwise the assignment becomes a new last line. |
| EnvFile.UpdateEnvValue | app/Console/Commands/GenerateVapidKeys.php:73-86 | updateEnvValue. UpdateEnvValueLines, UpdateEnvValueEffect and UpdateEnvValueIdempotent state its behaviour. |
| EnvFile.UpdateEnvValueEffect | app/Console/Commands/GenerateVapidKeys.php:73-86 | Afterwards the key is assigned, every assignment of it has the new value, and no line is lost. Each line that does not assign the key keeps its place and text. |
| EnvFile.UpdateEnvValueIdempotent | app/Console/Commands/GenerateVapidKeys.php:73-86 | Writing the same value twice equals writing it once, so re-running the generator does not append duplicates. |
| EnvFile.DistinctNames | app/Console/Commands/GenerateVapidKeys.php:75 | A line that assigns one name never matches the pattern of a different name. |
| EnvFile.OtherNameKept | app/Console/Commands/GenerateVapidKeys.php:54-55 | Upserting the private key keeps the public key's assignment and writes no other value for it. |
| EnvFile.WriteKeysAssignsBoth | app/Console/Commands/GenerateVapidKeys.php:44-57 | A missing file is the error exit. Otherwise both keys end up assigned, each only to its new value. |
| EnvFile.WriteKeys | app/Console/Commands/GenerateVapidKeys.php:44-57 | The .env text that handle() writes. WriteKeysAssignsBoth states the result. |
| TaskManager.EscapeChar | resources/js/components/taskManager.js:220-226 | The replacement of one character contains no markup character, and any other character is kept. |
| TaskManager.EscapeHtml | resources/js/components/taskManager.js:219-228 | The result contains no markup characters `&<>"'` unescaped, and text without special characters is returned unchanged. |
| TaskManager.EscapeHtmlAppend | resources/js/components/taskManager.js:227 | Escaping works character by character, so it distributes over concatenation. |
| TaskManager.UnescapeEscapeChar | resources/js/components/taskManager.js:220-226 | Each entity decodes back to its character. |
| TaskManager.EscapeRoundTrip | resources/js/components/taskManager.js:219-228 | Decoding the entities of the escaped text gives back the original, so escaping loses nothing. |
| TaskManager.TrimStart | resources/js/components/taskManager.js:32 | Removes exactly the leading white space. |
| TaskManager.TrimEnd | resources/js/components/taskManager.js:32 | Removes exactly the trailing white space. |
| TaskManager.JsTrim | resources/js/components/taskManager.js:154 | The result has no white space at either end, and it is empty exactly when the input is all white space. |
| TaskManager.TrimTrimmed | resources/js/components/taskManager.js:154 | Trimming a trimmed string changes nothing. |
| TaskManager.IndexFrom | resources/js/components/taskManager.js:152-154 | Finds the first case-insensitive match at or after a position, or reports that none exists. |
| TaskManager.FirstKeyword | resources/js/components/taskManager.js:151-157 | Finds the first pattern, in list order, that the input mentions, or reports that none does. |
| TaskManager.ParseNaturalLanguage | resources/js/components/taskManager.js:133-163 | The loop with its break returns the title and date of the reference parser. |
| TaskManager.Parse | resources/js/components/taskManager.js:133-163 | The result of parseNaturalLanguage as a function. ParseFirstMatchWins, ParseNoMatch, ParseTitle, KeywordAloneKeepsInput and GymToday state its behaviour, and ParseNaturalLanguage shows the loop computes it. |
| TaskManager.ParseFirstMatchWins | resources/js/components/taskManager.js:151-156 | The date comes from the first pattern in list order that matches, even when a later one also matches. |
| TaskManager.ParseNoMatch | resources/js/components/taskManager.js:148-162 | Without a keyword, the input is the title and there is no date. |
| TaskManager.ParseTitle | resources/js/components/taskManager.js:160 | A non-empty input never gets an empty title, and a trimmed input gets a trimmed title. |
| TaskManager.AddTaskTitle | resources/js/components/taskManager.js:32-35 | Nothing is submitted exactly when the box holds only white space. Otherwise the title is non-empty and trimmed. |
| TaskManager.KeywordAloneKeepsInput | resources/js/components/taskManager.js:154-160 | "today" alone keeps "today" as the title (the empty remainder falls back to the input) and is dated today. |
| TaskManager.GymToday | resources/js/components/taskManager.js:141-156 | "Gym today" becomes the title "Gym", dated today. |
| Text.Split | app/Http/Controllers/TelegramController.php:28 | explode always yields at least one part. |
| Text.JoinSplit | app/Console/Commands/GenerateVapidKeys.php:75-79 | Joining the exploded parts with the separator gives back the text. |
| Text.SplitCount | app/Http/Controllers/TelegramController.php:28-30 | The number of parts is one more than the number of separators. |
| Text.SplitJoin | app/Console/Commands/GenerateVapidKeys.php:75-79 | Exploding the join of separator-free parts gives back the parts. |
| Text.SplitAppend | app/Console/Commands/GenerateVapidKeys.php:82 | Exploding a + sep + b is exploding a, then exploding b. |
| Text.NatToString | app/Http/Controllers/TelegramController.php:75 | An id prints as a non-empty string of digits. |
| Text.ParseNat | app/Http/Controllers/TelegramController.php:33 | A key parses exactly when it is a non-empty string of digits. |
| Text.ParseNatToString | app/Http/Controllers/TelegramController.php:31-33 | Parsing a printed id gives back the id. |
| Text.NatToStringInjective | app/Http/Controllers/TelegramController.php:75 | Different ids print differently. |
| Text.RemoveAll | app/Http/Controllers/TelegramController.php:31 | str_replace with an empty replacement never lengthens the text. |
| Text.RemoveAllAbsent | app/Http/Controllers/TelegramController.php:31 | When the pattern does not occur, str_replace changes nothing. |
| Text.LTrim | app/Notifications/TaskReminderNotification.php:50-61 | PHP ltrim(): a suffix of the text; everything removed is white space, and the result does not start with white space. |
| Text.RTrim | app/Notifications/TaskReminderNotification.php:50-61 | PHP rtrim(): a prefix of the text; everything removed is white space, and the result does not end with white space. |
| Text.Trim | app/Notifications/TaskReminderNotification.php:50-61 | PHP trim(): no white space at either end, no line break added, and a text already in that form is unchanged. |
| Text.Lines | app/Notifications/TaskReminderNotification.php:50-61 | The split on \r\n, \r or \n gives at least one piece, no piece holds a break, and a text without breaks is one piece. |
| Text.LinesBreak | app/Notifications/TaskReminderNotification.php:50-61 | A \n or a \r\n pair ends the piece before it, and the split continues after it. |
| Text.LinesSplit | app/Notifications/TaskReminderNotification.php:50-61 | Without carriage returns the split is explode("\n"), and joining the pieces with \n gives the text back. |
| Text.TrimEach | app/Notifications/TaskReminderNotification.php:50-61 | array_map('trim'): one trimmed piece per piece, in order. |
| Text.JoinNoBreak | app/Notifications/TaskReminderNotification.php:50-61 | Joining break-free pieces with a space gives a break-free text. |
| Text.FormatLineSpec | app/Notifications/TaskReminderNotification.php:50-61 | The line MailMessage::line() stores has no line break and no white space at either end, and a line already in that form is stored as written. |
| Text.FormatLineIdempotent | app/Notifications/TaskReminderNotification.php:50-61 | Formatting a formatted line changes nothing. |
| Text.FormatLineKeepsLabelled | app/Notifications/TaskReminderNotification.php:51-56 | A label such as "**Task:** " followed by a break-free text ending in a visible character is stored as written. |
| Text.FormatLineTwoPieces | app/Notifications/TaskReminderNotification.php:51 | A text with one break becomes its two trimmed pieces joined by a space, trimmed. |
| Text.FormatLineJoinsPieces | app/Notifications/TaskReminderNotification.php:51 | " Buy milk\r\nnow " is stored as "Buy milk now". |
| Text.FormatLineKeepsEmptyPieces | app/Notifications/TaskReminderNotification.php:51 | An empty piece still contributes its space: "a\n\nb" is stored as "a  b". |
| Text.PlainConcat | app/Notifications/TaskReminderNotification.php:51-53 | Two break-free texts, the first starting and the second ending with a visible character, concatenate to a text with no break and no white space at either end. |
| Text.NatToStringPlain | app/Notifications/DailyDigestNotification.php:44-46 | A printed count has no break and no white space. |
| Calendar.FormatLongPlain | app/Notifications/TaskReminderNotification.php:52 | The long-form date has no break and no white space at either end, so line() keeps it. |

## Left out

- Sending messages and HTTP calls are not modelled. This covers
  TaskReminderNotification's mail transport and the WhatsApp, SMS,
  GekyChat and Telegram APIs, including the Telegram `sendMessage`
  reply. A delivery either returns or throws, given as a set of channels
  (or tasks) whose delivery throws; a reply is returned as a value.
- Telegram's `getTelegramBotInfo` is an optional bot username given to
  `Telegram.Setup`. The HTTP request behind it is not modelled.
- Also not modelled:
  - the clock (`now()` and `today()` are parameters);
  - the file system of the key generator and the key generation itself,
    i.e. the `--show` branch and the exception path;
  - logging.
- Laravel's global middleware (TrimStrings, ConvertEmptyStringsToNull) is
  not modelled. A request value is taken as the validator receives it.
  Non-string values that `required` treats as empty, and values that fail a
  type rule, are folded into one "malformed" case.
- `User::find` on the Telegram key: the database's coercion of a string such
  as "12abc" to an integer is not modelled. A key that is not all digits
  finds no user.
- The task policy behind `UpdateTaskRequest::authorize` is a boolean
  parameter.
- The browser: `toISOString()` and its UTC shift are omitted, as are the
  DOM handlers, the AJAX calls and every Blade view.
- Eloquent's query builder and `fresh()` are modelled by their results on a
  finite table. Eager loading of relations is left out.
- The recurrence, recurrence_ends_at and reminded_at columns are assumed to
  exist, as the code that reads them requires. Their migrations are not part
  of this model.
- `getTaskStatistics` returns completion_rate as a PHP float. The model
  gives it as an integer in hundredths of a percent with the same rounding.
- EnvFile.UpdateEnvValue: only plain upper-case variable names, and values
  without a newline, `$` or `\`, are covered. The callers' names and
  base64url keys meet this. Other values would be read by `preg_replace`
  as back-references or would break the line structure. `\r\n` line
  endings are treated as ordinary characters.
- Calendar.ParseToDateString: the round trip is stated for years 0 to
  9999. `toDateString` of other years varies by library.
- The time of day of `reminder_at` and of the clock is a plain number.
  Time zones are not modelled. The bounds of `getTaskStatistics` are
  nullable date-times in the code; the model takes them as dates, so a
  bound's time of day is not modelled.
- TaskService.CreateTask: returns the inserted row with the column
  defaults filled in. The code returns the model as created, without
  reloading it, so its JSON lacks `is_done` and the other database
  defaults. That difference in the response is not modelled.
- `MailMessage::line()` lives in the Laravel framework, which is not part
  of this model. Its SimpleMessage::formatLine is modelled from the
  framework's behaviour as Text.FormatLine: split on `\r\n`, `\r` or `\n`,
  trim each piece, join with a space, trim. Markdown rendering of the
  stored lines is left out.

## Findings

| source | as written | input that shows it | evidently intended | confidence | as-written member | corrected member |
|---|---|---|---|---|---|---|
| app/Models/Task.php:14-23 | `$fillable` does not list recurrence or recurrence_ends_at, so createTask and updateTask silently drop them, and recurrence never starts | a store request with `"recurrence": "daily", "recurrence_ends_at": <a later date>` creates a task with no recurrence | the recurrence columns are mass assignable, so the posted series is stored and spawns on completion | not executed | TaskService.CreateTaskRecurrence | TaskModel.IntendedKeepsRecurrenceAndReminded |
| app/Console/Commands/SendTaskReminders.php:27 | `$task->update(['reminded_at' => now()])` writes nothing, because reminded_at is not fillable, so every run re-sends every due reminder | a pending task with `reminder_at` in the past, reminded successfully; the next run selects it again | a successful reminder is recorded and never sent again; only failures are retried | not executed | Reminders.AsWrittenResendsReminders | Reminders.IntendedRetriesOnlyFailures |
| app/Http/Requests/StoreTaskRequest.php:66-70 | `has('priority')` is true for an explicit null, so no default is merged; `nullable` then accepts the null and the insert violates the NOT NULL priority column | `{"title": "Test", "priority": null}` | a missing or null priority defaults to 1 (medium) | not executed | Requests.NullPriorityAcceptedThenRefused | Requests.NullPriorityDefaulted |

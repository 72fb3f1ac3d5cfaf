/** The two mail notifications: app/Notifications/DailyDigestNotification.php
    and app/Notifications/TaskReminderNotification.php. A mail message is the
    subject, the greeting, the lines before the button, the button and the
    lines after it, the way Laravel's MailMessage builder files them. Both
    notifications are delivered by mail only. */
module Mail {
  import opened Wrappers
  import opened Text
  import opened Calendar
  import opened TaskModel
  import opened Notifications

  datatype MailMessage = MailMessage(
    subject: string,
    greeting: string,
    introLines: seq<string>,
    actionText: string,
    actionUrl: string,
    outroLines: seq<string>)

  /** The delivery channels both notifications declare. */
  const Via: seq<string> := ["mail"]

  /** `f` applied to every line, in order. */
  function MapLines(f: string -> string, lines: seq<string>): (r: seq<string>)
    ensures |r| == |lines|
  {
    if lines == [] then [] else [f(lines[0])] + MapLines(f, lines[1..])
  }

  lemma {:induction false} MapLinesAt(f: string -> string, lines: seq<string>, i: nat)
    requires i < |lines|
    ensures MapLines(f, lines)[i] == f(lines[i])
  {
    assert MapLines(f, lines) == [f(lines[0])] + MapLines(f, lines[1..]);
    if i > 0 {
      MapLinesAt(f, lines[1..], i - 1);
      assert lines[1..][i - 1] == lines[i];
    }
  }

  lemma {:induction false} MapLinesAppend(f: string -> string, a: seq<string>, b: seq<string>)
    ensures MapLines(f, a + b) == MapLines(f, a) + MapLines(f, b)
  {
    if a == [] {
      assert a + b == b;
    } else {
      assert (a + b)[0] == a[0] && (a + b)[1..] == a[1..] + b;
      assert MapLines(f, a + b) == [f(a[0])] + MapLines(f, a[1..] + b);
      MapLinesAppend(f, a[1..], b);
    }
  }

  /** The lines as MailMessage::line() files them, one FormatLine each. */
  function Filed(lines: seq<string>): (r: seq<string>)
    ensures |r| == |lines|
  {
    MapLines(FormatLine, lines)
  }

  /** Line `i` of the mail is line `i` of the builder's input, formatted. */
  lemma FiledAt(lines: seq<string>, i: nat)
    requires i < |lines|
    ensures Filed(lines)[i] == FormatLine(lines[i])
  {
    MapLinesAt(FormatLine, lines, i);
  }

  /** Filing a list is filing its parts. */
  lemma FiledAppend(a: seq<string>, b: seq<string>)
    ensures Filed(a + b) == Filed(a) + Filed(b)
  {
    MapLinesAppend(FormatLine, a, b);
  }

  /** Lines that are already plain are filed as they are. */
  lemma FiledPlain(lines: seq<string>)
    requires forall i :: 0 <= i < |lines| ==> Plain(lines[i])
    ensures Filed(lines) == lines
  {
    forall i | 0 <= i < |lines| ensures Filed(lines)[i] == lines[i] {
      FiledAt(lines, i);
      FormatLineSpec(lines[i]);
    }
  }

  // ---- daily digest -------------------------------------------------------------

  /** The coloured dot in front of a pending task. */
  function PriorityDot(p: int): string {
    if p == 2 then "\U{1F534}" else if p == 1 then "\U{1F7E1}" else if p == 0 then "\U{1F7E2}" else "\U{26AA}"
  }

  function TaskLine(t: Task): string {
    PriorityDot(t.priority) + " " + t.title
  }

  /** The three priorities get three different dots, and every other value
      gets the white one; a listed task reads as its dot, a space and its title. */
  lemma DigestDots(t: Task)
    ensures PriorityDot(2) != PriorityDot(1) && PriorityDot(1) != PriorityDot(0) && PriorityDot(2) != PriorityDot(0)
    ensures PriorityDot(t.priority) == "\U{26AA}" <==> !(0 <= t.priority <= 2)
    ensures |PriorityDot(t.priority)| == 1
    ensures TaskLine(t)[2..] == t.title && TaskLine(t)[1] == ' '
  {
  }

  /** A title without a line break that ends with a visible character is
      listed exactly as TaskLine writes it. Whatever the title, FormatLineSpec
      says the listed line has no break and no blank at either end. */
  lemma TaskLineFiled(t: Task)
    ensures EndsVisible(t.title) ==> FormatLine(TaskLine(t)) == TaskLine(t)
  {
    var dot := PriorityDot(t.priority);
    if EndsVisible(t.title) {
      assert NoBreak(dot + " ") && !PhpSpace((dot + " ")[0]);
      FormatLineKeepsLabelled(dot + " ", t.title);
    }
  }

  function MoreLine(n: nat): string {
    "... and " + NatToString(n) + " more tasks"
  }

  const AllDoneLine := "\U{2705} All tasks completed! Great job!"

  const DigestOutro := "Have a productive day! \U{1F680}"

  // The lines of the digest are plain, so the mail shows them as written.

  lemma CountLinePlain(head: string, n: nat)
    requires |head| > 0 && NoBreak(head) && !PhpSpace(head[0])
    ensures Plain(head + NatToString(n))
  {
    NatToStringPlain(n);
    PlainConcat(head, NatToString(n));
  }

  lemma MoreLineFiled(n: nat)
    ensures FormatLine(MoreLine(n)) == MoreLine(n)
  {
    CountLinePlain("... and ", n);
    PlainConcat("... and " + NatToString(n), " more tasks");
    FormatLineSpec(MoreLine(n));
  }

  lemma DigestFixedPlain()
    ensures Plain("Here's your task summary for today:") && Plain("")
  {
  }

  lemma DigestFixedPlain2()
    ensures Plain("**Today's Pending Tasks:**") && Plain(DigestOutro)
  {
  }

  lemma AllDoneFiled()
    ensures FormatLine(AllDoneLine) == AllDoneLine
  {
    assert Plain(AllDoneLine);
    FormatLineSpec(AllDoneLine);
  }

  lemma DigestHeaderPlain(tasks: seq<Task>)
    ensures forall i :: 0 <= i < |DigestHeader(tasks)| ==> Plain(DigestHeader(tasks)[i])
  {
    var s := DigestCounts(tasks);
    var h := DigestHeader(tasks);
    forall i | 0 <= i < |h| ensures Plain(h[i]) {
      if i == 0 || i == 4 {
        DigestFixedPlain();
      } else if i == 5 {
        DigestFixedPlain2();
      } else if i == 1 {
        CountLinePlain("**Total Tasks:** ", s.totalTasks);
      } else if i == 2 {
        CountLinePlain("**Pending:** ", s.pending);
      } else {
        CountLinePlain("**Completed:** ", s.completed);
      }
    }
  }

  lemma DigestHeaderFiled(tasks: seq<Task>)
    ensures Filed(DigestHeader(tasks)) == DigestHeader(tasks)
  {
    DigestHeaderPlain(tasks);
    FiledPlain(DigestHeader(tasks));
  }

  lemma DigestOutroFiled()
    ensures Filed([DigestOutro]) == [DigestOutro]
  {
    DigestFixedPlain2();
    FiledPlain([DigestOutro]);
  }

  /** The number of pending tasks the digest lists by name. */
  const DigestLimit: nat := 10

  datatype DigestSummary = DigestSummary(totalTasks: nat, pending: nat, completed: nat)

  /** toArray: the three counts; every task is either pending or completed. */
  function DigestCounts(tasks: seq<Task>): (s: DigestSummary)
    ensures s.totalTasks == |tasks|
    ensures s.pending == |Pending(tasks)| && s.completed == |Completed(tasks)|
    ensures s.pending == |PendingPositions(tasks)| && s.completed == |CompletedPositions(tasks)|
    ensures s.pending + s.completed == s.totalTasks
  {
    PendingPlusCompleted(tasks);
    PendingCount(tasks);
    CompletedCount(tasks);
    DigestSummary(|tasks|, |Pending(tasks)|, |Completed(tasks)|)
  }

  /** The lines before the list of pending tasks. */
  function DigestHeader(tasks: seq<Task>): seq<string> {
    var s := DigestCounts(tasks);
    ["Here's your task summary for today:",
     "**Total Tasks:** " + NatToString(s.totalTasks),
     "**Pending:** " + NatToString(s.pending),
     "**Completed:** " + NatToString(s.completed),
     "",
     "**Today's Pending Tasks:**"]
  }

  /** `lines` are what the digest hands to line() for the pending tasks: the
      first ten in collection order, then how many more there are if any;
      with nothing pending, the single all-done line. */
  predicate ListsPending(lines: seq<string>, pending: seq<Task>) {
    if |pending| == 0 then lines == [AllDoneLine]
    else
      var shown := if |pending| < DigestLimit then |pending| else DigestLimit;
      && |lines| == shown + (if |pending| > DigestLimit then 1 else 0)
      && (forall i :: 0 <= i < shown ==> lines[i] == TaskLine(pending[i]))
      && (|pending| > DigestLimit ==> lines[shown] == MoreLine(|pending| - DigestLimit))
  }

  /** The same lines as the mail shows them: each task line as line() files
      it; the count line and the all-done line are plain and shown as written. */
  predicate ShowsPending(lines: seq<string>, pending: seq<Task>) {
    if |pending| == 0 then lines == [AllDoneLine]
    else
      var shown := if |pending| < DigestLimit then |pending| else DigestLimit;
      && |lines| == shown + (if |pending| > DigestLimit then 1 else 0)
      && (forall i :: 0 <= i < shown ==> lines[i] == FormatLine(TaskLine(pending[i])))
      && (|pending| > DigestLimit ==> lines[shown] == MoreLine(|pending| - DigestLimit))
  }

  lemma FiledListing(lines: seq<string>, pending: seq<Task>)
    requires ListsPending(lines, pending)
    ensures ShowsPending(Filed(lines), pending)
  {
    if |pending| == 0 {
      FiledAt(lines, 0);
      AllDoneFiled();
    } else {
      var shown := if |pending| < DigestLimit then |pending| else DigestLimit;
      FiledTaskLines(lines, pending, shown);
      if |pending| > DigestLimit {
        FiledMoreLine(lines, shown, |pending| - DigestLimit);
      }
    }
  }

  lemma FiledMoreLine(lines: seq<string>, k: nat, n: nat)
    requires k < |lines| && lines[k] == MoreLine(n)
    ensures Filed(lines)[k] == MoreLine(n)
  {
    FiledAt(lines, k);
    MoreLineFiled(n);
  }

  lemma FiledTaskLines(lines: seq<string>, pending: seq<Task>, shown: nat)
    requires shown <= |lines| && shown <= |pending|
    requires forall i :: 0 <= i < shown ==> lines[i] == TaskLine(pending[i])
    ensures forall i :: 0 <= i < shown ==> Filed(lines)[i] == FormatLine(TaskLine(pending[i]))
  {
    forall i | 0 <= i < shown ensures Filed(lines)[i] == FormatLine(TaskLine(pending[i])) {
      FiledAt(lines, i);
    }
  }

  /** The part of the digest that names the pending tasks: the foreach over
      the first ten and the line about the rest. */
  method PendingLines(pending: seq<Task>) returns (lines: seq<string>)
    ensures ListsPending(lines, pending)
    ensures |lines| <= DigestLimit + 1
  {
    lines := [];
    if |pending| > 0 {
      var shown := if |pending| < DigestLimit then |pending| else DigestLimit;
      var i := 0;
      while i < shown
        invariant 0 <= i <= shown
        invariant |lines| == i
        invariant forall j :: 0 <= j < i ==> lines[j] == TaskLine(pending[j])
      {
        lines := lines + [TaskLine(pending[i])];
        i := i + 1;
      }
      if |pending| > DigestLimit {
        lines := lines + [MoreLine(|pending| - DigestLimit)];
      }
    } else {
      lines := [AllDoneLine];
    }
  }

  /** toMail of the daily digest. */
  method DigestMail(name: string, tasks: seq<Task>, today: Date, dashboardUrl: string) returns (m: MailMessage)
    ensures m.subject == "\U{1F4CB} Your Daily Task Digest - " + FormatShort(today)
    ensures m.greeting == "Good morning, " + name + "!"
    ensures |m.introLines| >= 6 && m.introLines[..6] == DigestHeader(tasks)
    ensures ShowsPending(m.introLines[6..], Pending(tasks))
    ensures |m.introLines| <= 6 + DigestLimit + 1
    ensures m.actionText == "View All Tasks" && m.actionUrl == dashboardUrl
    ensures m.outroLines == [DigestOutro]
  {
    DigestHeaderFiled(tasks);
    DigestOutroFiled();
    var listing := PendingLines(Pending(tasks));
    FiledListing(listing, Pending(tasks));
    FiledAppend(DigestHeader(tasks), listing);
    var lines := Filed(DigestHeader(tasks) + listing);
    assert lines[..6] == DigestHeader(tasks) && lines[6..] == Filed(listing);
    m := MailMessage("\U{1F4CB} Your Daily Task Digest - " + FormatShort(today),
                     "Good morning, " + name + "!", lines,
                     "View All Tasks", dashboardUrl, Filed([DigestOutro]));
  }

  // ---- task reminder ---------------------------------------------------------------

  /** The priority label of the reminder mail: the dot and the name of
      getPriorityText for 0, 1, 2, and a plain "Medium Priority" otherwise. */
  function ReminderPriorityLabel(p: int): (s: string)
    ensures 0 <= p <= 2 ==> s == PriorityDot(p) + " " + PriorityText(p) + " Priority"
    ensures !(0 <= p <= 2) ==> s == PriorityText(p) + " Priority"
  {
    if p == 0 then "\U{1F7E2}" + " " + "Low" + " Priority"
    else if p == 1 then "\U{1F7E1}" + " " + "Medium" + " Priority"
    else if p == 2 then "\U{1F534}" + " " + "High" + " Priority"
    else "Medium" + " Priority"
  }

  const ReminderIntro := "This is a reminder about your upcoming task:"
  const ReminderOutro: seq<string> := ["Don't forget to complete your task!", "Stay organized with BLACKTASK \U{1F4CB}"]

  // The fixed lines, the due date and the priority of the reminder are
  // plain, so the mail shows them as written.

  lemma ReminderIntroFiled()
    ensures FormatLine(ReminderIntro) == ReminderIntro
  {
    assert Plain(ReminderIntro);
    FormatLineSpec(ReminderIntro);
  }

  lemma ReminderOutroPlain(i: nat)
    requires i < |ReminderOutro|
    ensures Plain(ReminderOutro[i])
  {
    if i == 0 {
      assert Plain("Don't forget to complete your task!");
    } else {
      assert Plain("Stay organized with BLACKTASK \U{1F4CB}");
    }
  }

  lemma ReminderOutroFiled()
    ensures Filed(ReminderOutro) == ReminderOutro
  {
    ReminderOutroPlain(0);
    ReminderOutroPlain(1);
    FiledPlain(ReminderOutro);
  }

  lemma DueDateLineFiled(d: Date)
    ensures FormatLine("**Due Date:** " + FormatLong(d)) == "**Due Date:** " + FormatLong(d)
  {
    FormatLongPlain(d);
    FormatLineKeepsLabelled("**Due Date:** ", FormatLong(d));
  }

  lemma PriorityLineFiled(p: int)
    ensures FormatLine("**Priority:** " + ReminderPriorityLabel(p)) == "**Priority:** " + ReminderPriorityLabel(p)
  {
    PriorityLabelVisible(p);
    FormatLineKeepsLabelled("**Priority:** ", ReminderPriorityLabel(p));
  }

  lemma PriorityLabelVisible(p: int)
    ensures EndsVisible(ReminderPriorityLabel(p))
  {
    if p == 0 {
      LabelVisible("\U{1F7E2}" + " " + "Low" + " Priority");
    } else if p == 1 {
      LabelVisible("\U{1F7E1}" + " " + "Medium" + " Priority");
    } else if p == 2 {
      LabelVisible("\U{1F534}" + " " + "High" + " Priority");
    } else {
      LabelVisible("Medium" + " Priority");
    }
  }

  /** Each priority label ends in " Priority". */
  lemma LabelVisible(s: string)
    requires |s| >= 9 && s[|s| - 9..] == " Priority" && NoBreak(s[..|s| - 9])
    ensures EndsVisible(s)
  {
    assert s == s[..|s| - 9] + " Priority";
    assert NoBreak(" Priority");
    NoBreakAppend(s[..|s| - 9], " Priority");
  }

  /** A title or a category name without a line break that ends with a
      visible character is shown as it is. */
  lemma ReminderTextFiled(title: string, categoryName: string)
    ensures EndsVisible(title) ==> FormatLine("**Task:** " + title) == "**Task:** " + title
    ensures EndsVisible(categoryName) ==>
              FormatLine("**Category:** " + categoryName) == "**Category:** " + categoryName
  {
    if EndsVisible(title) {
      FormatLineKeepsLabelled("**Task:** ", title);
    }
    if EndsVisible(categoryName) {
      FormatLineKeepsLabelled("**Category:** ", categoryName);
    }
  }

  /** The four lines every reminder hands to line(). */
  function ReminderHead(title: string, d: Date, p: int): seq<string> {
    [ReminderIntro, "**Task:** " + title, "**Due Date:** " + FormatLong(d), "**Priority:** " + ReminderPriorityLabel(p)]
  }

  /** What the reminder hands to line() before the button: the four lines,
      then the category line when the task has a category. */
  function ReminderLines(t: Task, category: Option<Category>): seq<string> {
    ReminderHead(t.title, t.taskDate, t.priority)
      + (if category.Some? then ["**Category:** " + category.value.name] else [])
  }

  /** The lines before the button as the mail shows them. */
  lemma ReminderLinesFiled(t: Task, category: Option<Category>)
    ensures |Filed(ReminderLines(t, category))| == (if category.Some? then 5 else 4)
    ensures Filed(ReminderLines(t, category))[0] == ReminderIntro
    ensures Filed(ReminderLines(t, category))[1] == FormatLine("**Task:** " + t.title)
    ensures Filed(ReminderLines(t, category))[2] == "**Due Date:** " + FormatLong(t.taskDate)
    ensures Filed(ReminderLines(t, category))[3] == "**Priority:** " + ReminderPriorityLabel(t.priority)
    ensures category.Some? ==> Filed(ReminderLines(t, category))[4] == FormatLine("**Category:** " + category.value.name)
  {
    var extra := if category.Some? then ["**Category:** " + category.value.name] else [];
    ReminderHeadFiled(t.title, t.taskDate, t.priority);
    FiledAppend(ReminderHead(t.title, t.taskDate, t.priority), extra);
    if category.Some? {
      FiledAt(extra, 0);
    }
  }

  /** As line() files them, the intro, the due date and the priority are kept
      as written; only the task line is formatted. */
  lemma ReminderHeadFiled(title: string, d: Date, p: int)
    ensures Filed(ReminderHead(title, d, p))[0] == ReminderIntro
    ensures Filed(ReminderHead(title, d, p))[1] == FormatLine("**Task:** " + title)
    ensures Filed(ReminderHead(title, d, p))[2] == "**Due Date:** " + FormatLong(d)
    ensures Filed(ReminderHead(title, d, p))[3] == "**Priority:** " + ReminderPriorityLabel(p)
  {
    var lines := ReminderHead(title, d, p);
    FiledIntro(lines, 0);
    FiledAt(lines, 1);
    FiledDueDate(lines, 2, d);
    FiledPriority(lines, 3, p);
  }

  lemma FiledIntro(lines: seq<string>, k: nat)
    requires k < |lines| && lines[k] == ReminderIntro
    ensures Filed(lines)[k] == ReminderIntro
  {
    FiledAt(lines, k);
    ReminderIntroFiled();
  }

  lemma FiledDueDate(lines: seq<string>, k: nat, d: Date)
    requires k < |lines| && lines[k] == "**Due Date:** " + FormatLong(d)
    ensures Filed(lines)[k] == "**Due Date:** " + FormatLong(d)
  {
    FiledAt(lines, k);
    DueDateLineFiled(d);
  }

  lemma FiledPriority(lines: seq<string>, k: nat, p: int)
    requires k < |lines| && lines[k] == "**Priority:** " + ReminderPriorityLabel(p)
    ensures Filed(lines)[k] == "**Priority:** " + ReminderPriorityLabel(p)
  {
    FiledAt(lines, k);
    PriorityLineFiled(p);
  }

  /** toMail of the reminder. `category` is the task's loaded category. */
  method ReminderMail(name: string, task: Task, category: Option<Category>, tasksUrl: string) returns (m: MailMessage)
    requires category.Some? <==> task.categoryId.Some?
    requires category.Some? ==> category.value.id == task.categoryId.value
    ensures m.subject == "\U{1F514} Task Reminder: " + task.title
    ensures m.greeting == "Hello " + name + "!"
    ensures |m.introLines| == (if task.categoryId.Some? then 5 else 4)
    ensures m.introLines[0] == ReminderIntro
    ensures m.introLines[1] == FormatLine("**Task:** " + task.title)
    ensures m.introLines[2] == "**Due Date:** " + FormatLong(task.taskDate)
    ensures m.introLines[3] == "**Priority:** " + ReminderPriorityLabel(task.priority)
    ensures task.categoryId.Some? ==> m.introLines[4] == FormatLine("**Category:** " + category.value.name)
    ensures m.actionText == "View Task" && m.actionUrl == tasksUrl
    ensures m.outroLines == ReminderOutro
  {
    ReminderLinesFiled(task, category);
    ReminderOutroFiled();
    m := MailMessage("\U{1F514} Task Reminder: " + task.title, "Hello " + name + "!", Filed(ReminderLines(task, category)),
                     "View Task", tasksUrl, Filed(ReminderOutro));
  }

  datatype ReminderData = ReminderData(taskId: TaskId, taskTitle: string, dueDate: string, priority: int)

  /** toArray of the reminder: exactly the id, the title, the Y-m-d date and the priority. */
  function ReminderArray(t: Task): (r: ReminderData)
    ensures r.taskId == t.id && r.taskTitle == t.title && r.priority == t.priority
    ensures 0 <= t.taskDate.year < 10000 ==> ParseDateString(r.dueDate) == Some(t.taskDate)
  {
    DueDateReadsBack(t.taskDate);
    ReminderData(t.id, t.title, ToDateString(t.taskDate), t.priority)
  }

  /** The reminder array and the browser payload carry the same date text. */
  lemma ReminderArrayMatchesPayload(t: Task)
    ensures ReminderArray(t).dueDate == BrowserNotificationPayload(t).dueDate
    ensures ReminderArray(t).taskId == BrowserNotificationPayload(t).taskId
  {
  }
}

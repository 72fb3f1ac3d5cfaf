/** app/Services/NotificationService.php: which channels a reminder or a
    digest is reported as sent on, the priority names and the payload handed
    to the browser. A delivery is an abstract oracle: the set of channels
    whose delivery throws. */
module Notifications {
  import opened Wrappers
  import opened Calendar
  import opened TaskModel
  import opened Users

  datatype Channel = Browser | Email | WhatsApp | Sms | GekyChat | Push | Telegram

  /** The name reported in the result array. */
  function ChannelName(c: Channel): string {
    match c
    case Browser => "browser"
    case Email => "email"
    case WhatsApp => "whatsapp"
    case Sms => "sms"
    case GekyChat => "gekychat"
    case Push => "push"
    case Telegram => "telegram"
  }

  lemma ChannelNameInjective(a: Channel, b: Channel)
    ensures ChannelName(a) == ChannelName(b) ==> a == b
  {
  }

  /** The position of a channel in the order sendTaskReminder tries them;
      the last two are never tried by it. */
  function Rank(c: Channel): nat {
    match c
    case Browser => 0
    case Email => 1
    case WhatsApp => 2
    case Sms => 3
    case GekyChat => 4
    case Push => 5
    case Telegram => 6
  }

  /** A delivery sendTaskReminder tries on channel `c`. The browser channel
      needs none (the page shows it), and the phone channels need a phone. */
  predicate Attempts(u: User, c: Channel) {
    match c
    case Email => u.emailNotifications
    case WhatsApp => u.whatsappNotifications && HasPhone(u)
    case Sms => u.smsNotifications && HasPhone(u)
    case GekyChat => u.gekychatNotifications && HasPhone(u)
    case _ => false
  }

  /** Channel `c` ends up in the result: the browser on its flag alone, any
      other channel when its delivery was tried and did not throw. Whether a
      phone helper returned false (unconfigured, or a failed response) plays
      no part. */
  predicate ReportsSent(u: User, c: Channel, throws: set<Channel>) {
    (c == Browser && u.browserNotifications) || (Attempts(u, c) && c !in throws)
  }

  /** `[c]` when `keep` holds, else nothing. */
  function If(keep: bool, c: Channel): (r: seq<Channel>)
    ensures forall x :: x in r <==> keep && x == c
    ensures |r| <= 1
  {
    if keep then [c] else []
  }

  /** The channels sendTaskReminder reports, in the order it goes through them. */
  function Reported(u: User, throws: set<Channel>): seq<Channel> {
    If(ReportsSent(u, Browser, throws), Browser) + If(ReportsSent(u, Email, throws), Email)
    + If(ReportsSent(u, WhatsApp, throws), WhatsApp) + If(ReportsSent(u, Sms, throws), Sms)
    + If(ReportsSent(u, GekyChat, throws), GekyChat)
  }

  /** The deliveries sendTaskReminder tries, in order. */
  function Tried(u: User): seq<Channel> {
    If(Attempts(u, Email), Email) + If(Attempts(u, WhatsApp), WhatsApp)
    + If(Attempts(u, Sms), Sms) + If(Attempts(u, GekyChat), GekyChat)
  }

  predicate Ascending(s: seq<Channel>) {
    forall i, j :: 0 <= i < j < |s| ==> Rank(s[i]) < Rank(s[j])
  }

  /** Two ascending lists, the first wholly below `bound` and the second at
      or above it, make an ascending list. */
  lemma AscendingConcat(a: seq<Channel>, b: seq<Channel>, bound: nat)
    requires Ascending(a) && Ascending(b)
    requires forall c :: c in a ==> Rank(c) < bound
    requires forall c :: c in b ==> bound <= Rank(c)
    ensures Ascending(a + b)
  {
    var r := a + b;
    forall i, j | 0 <= i < j < |r| ensures Rank(r[i]) < Rank(r[j]) {
      if i < |a| && j >= |a| {
        assert r[i] in a && r[j] == b[j - |a|];
      } else if i >= |a| {
        assert r[i] == b[i - |a|] && r[j] == b[j - |a|];
      }
    }
  }

  /** The result of sendTaskReminder holds a channel exactly when it is
      reported as sent; push and telegram are never among them. */
  lemma ReportedChannels(u: User, throws: set<Channel>)
    ensures forall c :: c in Reported(u, throws) <==> ReportsSent(u, c, throws)
    ensures Push !in Reported(u, throws) && Telegram !in Reported(u, throws)
  {
    var b := If(ReportsSent(u, Browser, throws), Browser);
    var e := If(ReportsSent(u, Email, throws), Email);
    var w := If(ReportsSent(u, WhatsApp, throws), WhatsApp);
    var s := If(ReportsSent(u, Sms, throws), Sms);
    var g := If(ReportsSent(u, GekyChat, throws), GekyChat);
    forall c ensures c in Reported(u, throws) <==> ReportsSent(u, c, throws) {
      assert c in Reported(u, throws) <==> c in b || c in e || c in w || c in s || c in g;
    }
  }

  /** ... and is a sub-list of browser, email, whatsapp, sms, gekychat, in
      that order and with no repetition. */
  lemma ReportedInOrder(u: User, throws: set<Channel>)
    ensures Ascending(Reported(u, throws))
  {
    var b := If(ReportsSent(u, Browser, throws), Browser);
    var e := If(ReportsSent(u, Email, throws), Email);
    var w := If(ReportsSent(u, WhatsApp, throws), WhatsApp);
    var s := If(ReportsSent(u, Sms, throws), Sms);
    var g := If(ReportsSent(u, GekyChat, throws), GekyChat);
    AscendingConcat(b, e, 1);
    AscendingConcat(b + e, w, 2);
    AscendingConcat(b + e + w, s, 3);
    AscendingConcat(b + e + w + s, g, 4);
  }

  /** The deliveries tried depend on the flags and the phone alone, never on
      an earlier channel's failure, and go in the same order. */
  lemma TriedChannels(u: User)
    ensures forall c :: c in Tried(u) <==> Attempts(u, c)
    ensures Ascending(Tried(u))
  {
    var e := If(Attempts(u, Email), Email);
    var w := If(Attempts(u, WhatsApp), WhatsApp);
    var s := If(Attempts(u, Sms), Sms);
    var g := If(Attempts(u, GekyChat), GekyChat);
    assert Tried(u) == e + w + s + g;
    AscendingConcat(e, w, 2);
    AscendingConcat(e + w, s, 3);
    AscendingConcat(e + w + s, g, 4);
    forall c ensures c in Tried(u) <==> Attempts(u, c) {
      assert c in Tried(u) <==> c in e || c in w || c in s || c in g;
    }
  }

  /** One try block of sendTaskReminder for a channel that sends: the
      delivery is tried when the channel is on (and has a phone where it
      needs one), and the channel is reported when it did not throw. */
  method Deliver(user: User, c: Channel, throws: set<Channel>, sent0: seq<Channel>, attempted0: seq<Channel>)
    returns (sent: seq<Channel>, attempted: seq<Channel>)
    requires c != Browser
    ensures sent == sent0 + If(ReportsSent(user, c, throws), c)
    ensures attempted == attempted0 + If(Attempts(user, c), c)
  {
    sent, attempted := sent0, attempted0;
    if Attempts(user, c) {
      attempted := attempted + [c];
      if c !in throws {
        sent := sent + [c];
      }
    }
  }

  /** sendTaskReminder: each channel in its own try block, in a fixed order. */
  method SendTaskReminder(user: User, task: Task, throws: set<Channel>)
    returns (sent: seq<Channel>, attempted: seq<Channel>)
    ensures sent == Reported(user, throws)
    ensures attempted == Tried(user)
  {
    sent, attempted := [], [];
    if user.browserNotifications {
      sent := sent + [Browser];
    }
    assert sent == If(ReportsSent(user, Browser, throws), Browser);
    assert attempted == [];
    sent, attempted := Deliver(user, Email, throws, sent, attempted);
    sent, attempted := Deliver(user, WhatsApp, throws, sent, attempted);
    sent, attempted := Deliver(user, Sms, throws, sent, attempted);
    sent, attempted := Deliver(user, GekyChat, throws, sent, attempted);
    assert [] + If(Attempts(user, Email), Email) == If(Attempts(user, Email), Email);
  }

  /** sendDailyDigest: nothing for an empty collection; otherwise the email
      digest when the user wants email and its delivery did not throw. */
  method SendDailyDigest(user: User, tasks: seq<Task>, emailThrows: bool) returns (sent: seq<Channel>)
    ensures |tasks| == 0 ==> sent == []
    ensures sent == [] || sent == [Email]
    ensures Email in sent <==> |tasks| > 0 && user.emailNotifications && !emailThrows
  {
    sent := [];
    if |tasks| == 0 {
      return;
    }
    if user.emailNotifications && !emailThrows {
      sent := sent + [Email];
    }
  }

  /** getPriorityText: 0, 1, 2 are Low, Medium, High; anything else reads as Medium. */
  function PriorityText(p: int): (s: string)
    ensures s == "Low" <==> p == 0
    ensures s == "High" <==> p == 2
    ensures s == "Medium" <==> p != 0 && p != 2
  {
    if p == 0 then "Low" else if p == 1 then "Medium" else if p == 2 then "High" else "Medium"
  }

  /** A date written Y-m-d reads back as itself for four-digit years. */
  lemma DueDateReadsBack(d: Date)
    ensures 0 <= d.year < 10000 ==> ParseDateString(ToDateString(d)) == Some(d)
  {
    if 0 <= d.year < 10000 {
      ParseToDateString(d);
    }
  }

  datatype Action = Action(action: string, title: string)

  datatype BrowserPayload = BrowserPayload(
    title: string, body: string, icon: string, badge: string,
    taskId: TaskId, dueDate: string, priority: int,
    actions: seq<Action>)

  const ReminderTitle := "\U{1F514} BLACKTASK Reminder"

  /** getBrowserNotificationPayload. The due date is written Y-m-d and reads
      back as the task's date for every four-digit year. */
  function BrowserNotificationPayload(t: Task): (p: BrowserPayload)
    ensures p.title == ReminderTitle && p.body == t.title
    ensures p.taskId == t.id && p.priority == t.priority
    ensures 0 <= t.taskDate.year < 10000 ==> ParseDateString(p.dueDate) == Some(t.taskDate)
    ensures p.icon == "/favicon.ico" && p.badge == "/favicon.ico"
    ensures p.actions == [Action("complete", "Mark Complete"), Action("view", "View Task")]
  {
    DueDateReadsBack(t.taskDate);
    BrowserPayload(ReminderTitle, t.title, "/favicon.ico", "/favicon.ico",
                   t.id, ToDateString(t.taskDate), t.priority,
                   [Action("complete", "Mark Complete"), Action("view", "View Task")])
  }
}

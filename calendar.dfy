/** Calendar dates without a time part (the `date` cast of Task::$task_date),
    in the proleptic Gregorian calendar, with the two month rules the program
    relies on: Carbon's addMonth/addYear, which let a day that does not exist
    in the target month overflow into the following month, and luxon's
    plus({months}), which clamps it to the target month's last day. */
module Calendar {
  import opened Wrappers
  import opened Text

  datatype Ymd = Ymd(year: int, month: int, day: int)

  predicate IsLeapYear(y: int) {
    y % 4 == 0 && (y % 100 != 0 || y % 400 == 0)
  }

  function DaysInMonth(y: int, m: int): (n: int)
    requires 1 <= m <= 12
    ensures 28 <= n <= 31
  {
    if m == 2 then (if IsLeapYear(y) then 29 else 28)
    else if m == 4 || m == 6 || m == 9 || m == 11 then 30
    else 31
  }

  predicate IsValid(d: Ymd) {
    1 <= d.month <= 12 && 1 <= d.day <= DaysInMonth(d.year, d.month)
  }

  /** A day that exists in the calendar. */
  type Date = d: Ymd | IsValid(d) witness Ymd(1970, 1, 1)

  /** Chronological order: `a` is strictly earlier than `b`. */
  predicate Before(a: Ymd, b: Ymd) {
    a.year < b.year
    || (a.year == b.year && (a.month < b.month || (a.month == b.month && a.day < b.day)))
  }

  predicate OnOrBefore(a: Ymd, b: Ymd) {
    !Before(b, a)
  }

  lemma BeforeTransitive(a: Ymd, b: Ymd, c: Ymd)
    requires Before(a, b) && Before(b, c)
    ensures Before(a, c)
  {
  }

  lemma BeforeTotal(a: Ymd, b: Ymd)
    ensures a == b || Before(a, b) || Before(b, a)
  {
  }

  /** The following day (Carbon addDay). */
  function NextDay(d: Date): (r: Date)
    ensures Before(d, r)
    ensures forall x: Date {:trigger Before(d, x)} :: Before(d, x) ==> OnOrBefore(r, x)
  {
    if d.day < DaysInMonth(d.year, d.month) then Ymd(d.year, d.month, d.day + 1)
    else if d.month < 12 then Ymd(d.year, d.month + 1, 1)
    else Ymd(d.year + 1, 1, 1)
  }

  /** The preceding day (Carbon subDay). */
  function PrevDay(d: Date): (r: Date)
    ensures NextDay(r) == d
  {
    if d.day > 1 then Ymd(d.year, d.month, d.day - 1)
    else if d.month > 1 then Ymd(d.year, d.month - 1, DaysInMonth(d.year, d.month - 1))
    else Ymd(d.year - 1, 12, 31)
  }

  lemma PrevNextDay(d: Date)
    ensures PrevDay(NextDay(d)) == d
  {
  }

  /** Carbon addDays(n); a negative `n` moves back. */
  function AddDays(d: Date, n: int): Date
    decreases if n < 0 then -n else n
  {
    if n == 0 then d
    else if n > 0 then AddDays(NextDay(d), n - 1)
    else AddDays(PrevDay(d), n + 1)
  }

  lemma {:induction false} AddDaysForward(d: Date, n: int)
    requires n > 0
    ensures Before(d, AddDays(d, n))
    decreases n
  {
    if n > 1 {
      AddDaysForward(NextDay(d), n - 1);
      BeforeTransitive(d, NextDay(d), AddDays(d, n));
    }
  }

  lemma {:induction false} AddDaysBackward(d: Date, n: int)
    requires n < 0
    ensures Before(AddDays(d, n), d)
    decreases -n
  {
    if n < -1 {
      AddDaysBackward(PrevDay(d), n + 1);
      BeforeTransitive(AddDays(d, n), PrevDay(d), d);
    }
  }

  /** Adding days in two steps is adding their sum. */
  lemma {:induction false} AddDaysAdditive(d: Date, a: nat, b: nat)
    ensures AddDays(AddDays(d, a), b) == AddDays(d, a + b)
    decreases a
  {
    if a > 0 {
      AddDaysAdditive(NextDay(d), a - 1, b);
    }
  }

  /** Counting days forward inside one month just moves the day number. */
  lemma {:induction false} AddDaysInMonth(d: Date, k: nat)
    requires d.day + k <= DaysInMonth(d.year, d.month)
    ensures AddDays(d, k) == Ymd(d.year, d.month, d.day + k)
    decreases k
  {
    if k > 0 {
      AddDaysInMonth(NextDay(d), k - 1);
    }
  }

  // ---- month arithmetic ---------------------------------------------------

  /** Year and month `n` months after month `m` of year `y`. */
  function ShiftMonth(y: int, m: int, n: int): (ym: (int, int))
    requires 1 <= m <= 12
    ensures 1 <= ym.1 <= 12
    ensures ym.0 * 12 + ym.1 - 1 == y * 12 + m - 1 + n
  {
    var index := y * 12 + (m - 1) + n;
    (index / 12, index % 12 + 1)
  }

  /** Month `m` of year `y` counted from year 0. */
  lemma MonthIndexUnique(y1: int, m1: int, y2: int, m2: int)
    requires 1 <= m1 <= 12 && 1 <= m2 <= 12
    ensures y1 * 12 + m1 < y2 * 12 + m2 <==> y1 < y2 || (y1 == y2 && m1 < m2)
  {
  }

  /** Carbon addMonths(n) (months overflow, Carbon's default): the day number
      is kept, and a day past the end of the target month runs on into the
      month after it, so January 31 plus one month is March 3 (March 2 in a
      leap year). */
  function AddMonthsOverflow(d: Date, n: int): Date
  {
    var ym := ShiftMonth(d.year, d.month, n);
    var last := DaysInMonth(ym.0, ym.1);
    if d.day <= last then Ymd(ym.0, ym.1, d.day)
    else
      var next := ShiftMonth(ym.0, ym.1, 1);
      Ymd(next.0, next.1, d.day - last)
  }

  /** Carbon addYears(n) (years overflow): twelve months per year, so
      February 29 plus one year is March 1. */
  function AddYearsOverflow(d: Date, n: int): Date {
    AddMonthsOverflow(d, 12 * n)
  }

  /** luxon DateTime.plus({months: n}): the day is clamped to the last day of
      the target month, so January 31 plus one month is February 28 (29). */
  function AddMonthsClamp(d: Date, n: int): Date {
    var ym := ShiftMonth(d.year, d.month, n);
    var last := DaysInMonth(ym.0, ym.1);
    Ymd(ym.0, ym.1, if d.day <= last then d.day else last)
  }

  /** The overflow rule is PHP's normalisation: take day 1 of the target month
      and count the day number minus one days forward. */
  lemma AddMonthsOverflowCountsDays(d: Date, n: int)
    ensures var ym := ShiftMonth(d.year, d.month, n);
            AddMonthsOverflow(d, n) == AddDays(Ymd(ym.0, ym.1, 1), d.day - 1)
  {
    var ym := ShiftMonth(d.year, d.month, n);
    var first: Date := Ymd(ym.0, ym.1, 1);
    var last := DaysInMonth(ym.0, ym.1);
    if d.day <= last {
      AddDaysInMonth(first, d.day - 1);
    } else {
      OverflowIntoNextMonth(first, last, d.day - last);
    }
  }

  /** The day after a month's last day is day 1 of the next month. */
  lemma NextDayAtMonthEnd(d: Date)
    requires d.day == DaysInMonth(d.year, d.month)
    ensures var next := ShiftMonth(d.year, d.month, 1);
            NextDay(d) == Ymd(next.0, next.1, 1)
  {
  }

  /** From day 1 of a month with `last` days, `last - 1 + extra` days later is
      day `extra` of the following month. */
  lemma OverflowIntoNextMonth(first: Date, last: int, extra: int)
    requires first.day == 1 && last == DaysInMonth(first.year, first.month)
    requires 1 <= extra <= 3
    ensures var next := ShiftMonth(first.year, first.month, 1);
            AddDays(first, last - 1 + extra) == Ymd(next.0, next.1, extra)
  {
    var lastDay: Date := Ymd(first.year, first.month, last);
    AddDaysInMonth(first, last - 1);
    AddDaysAdditive(first, last - 1, extra);
    NextDayAtMonthEnd(lastDay);
    var next := ShiftMonth(first.year, first.month, 1);
    var firstNext: Date := Ymd(next.0, next.1, 1);
    assert AddDays(lastDay, extra) == AddDays(firstNext, extra - 1);
    AddDaysInMonth(firstNext, extra - 1);
  }

  /** Adding at least one month always moves strictly forward. */
  lemma AddMonthsOverflowForward(d: Date, n: int)
    requires n >= 1
    ensures Before(d, AddMonthsOverflow(d, n))
  {
    var ym := ShiftMonth(d.year, d.month, n);
    MonthIndexUnique(d.year, d.month, ym.0, ym.1);
    var last := DaysInMonth(ym.0, ym.1);
    if d.day > last {
      var next := ShiftMonth(ym.0, ym.1, 1);
      MonthIndexUnique(d.year, d.month, next.0, next.1);
    }
  }

  /** A day that exists in the target month is kept under both rules. */
  lemma MonthRulesAgree(d: Date, n: int)
    requires var ym := ShiftMonth(d.year, d.month, n); d.day <= DaysInMonth(ym.0, ym.1)
    ensures AddMonthsOverflow(d, n) == AddMonthsClamp(d, n)
    ensures AddMonthsClamp(d, n).day == d.day
  {
  }

  /** Otherwise the clamped date is the target month's last day and the
      overflowed one lies strictly after it, in the month that follows. */
  lemma MonthRulesDiffer(d: Date, n: int)
    requires var ym := ShiftMonth(d.year, d.month, n); d.day > DaysInMonth(ym.0, ym.1)
    ensures Before(AddMonthsClamp(d, n), AddMonthsOverflow(d, n))
    ensures AddMonthsClamp(d, n).day == DaysInMonth(AddMonthsClamp(d, n).year, AddMonthsClamp(d, n).month)
    ensures AddMonthsOverflow(d, n) == NextDay(AddMonthsClamp(d, n)) || AddMonthsOverflow(d, n).day > 1
  {
    var ym := ShiftMonth(d.year, d.month, n);
    var next := ShiftMonth(ym.0, ym.1, 1);
    MonthIndexUnique(ym.0, ym.1, next.0, next.1);
  }

  lemma JanuaryThirtyFirstPlusMonth()
    ensures AddMonthsOverflow(Ymd(2025, 1, 31), 1) == Ymd(2025, 3, 3)
    ensures AddMonthsOverflow(Ymd(2024, 1, 31), 1) == Ymd(2024, 3, 2)
    ensures AddMonthsClamp(Ymd(2025, 1, 31), 1) == Ymd(2025, 2, 28)
    ensures AddYearsOverflow(Ymd(2024, 2, 29), 1) == Ymd(2025, 3, 1)
  {
  }

  // ---- day of the week ----------------------------------------------------

  /** Days contributed by the years before `y` (Sakamoto's method). */
  function YearShift(y: int): int {
    y + y / 4 - y / 100 + y / 400
  }

  function MonthShift(m: int): int
    requires 1 <= m <= 12
  {
    [0, 3, 2, 5, 0, 3, 5, 1, 4, 6, 2, 4][m - 1]
  }

  /** Day of the week, 0 = Sunday … 6 = Saturday (PHP format character `w`). */
  function DayOfWeek(d: Date): (w: int)
    ensures 0 <= w < 7
  {
    var y := if d.month < 3 then d.year - 1 else d.year;
    (YearShift(y) + MonthShift(d.month) + d.day) % 7
  }

  lemma DivStep4(y: int)
    ensures y / 4 - (y - 1) / 4 == (if y % 4 == 0 then 1 else 0)
  {
  }

  lemma DivStep100(y: int)
    ensures y / 100 - (y - 1) / 100 == (if y % 100 == 0 then 1 else 0)
  {
  }

  lemma DivStep400(y: int)
    ensures y / 400 - (y - 1) / 400 == (if y % 400 == 0 then 1 else 0)
  {
  }

  lemma Multiples(y: int)
    ensures y % 400 == 0 ==> y % 100 == 0
    ensures y % 100 == 0 ==> y % 4 == 0
  {
  }

  lemma YearShiftStep(y: int)
    ensures YearShift(y) == YearShift(y - 1) + 1 + (if IsLeapYear(y) then 1 else 0)
  {
    DivStep4(y);
    DivStep100(y);
    DivStep400(y);
    Multiples(y);
  }

  lemma ShiftMod7(x: int, a: int, b: int)
    requires b == a + 1 || b == a + 1 - 7 || b == a + 1 - 35 || b == a + 1 - 28
    ensures (x + b) % 7 == ((x + a) % 7 + 1) % 7
  {
  }

  /** Consecutive days fall on consecutive days of the week. */
  lemma DayOfWeekNextDay(d: Date)
    ensures DayOfWeek(NextDay(d)) == (DayOfWeek(d) + 1) % 7
  {
    var y := if d.month < 3 then d.year - 1 else d.year;
    var x := YearShift(y);
    if d.day < DaysInMonth(d.year, d.month) {
      ShiftMod7(x, MonthShift(d.month) + d.day, MonthShift(d.month) + d.day + 1);
    } else if d.month == 2 {
      FebruaryToMarch(d);
    } else if d.month == 12 {
      assert NextDay(d) == Ymd(d.year + 1, 1, 1);
      ShiftMod7(x, 4 + 31, 0 + 1);
    } else {
      assert NextDay(d) == Ymd(d.year, d.month + 1, 1);
      ShiftMod7(x, MonthShift(d.month) + d.day, MonthShift(d.month + 1) + 1);
    }
  }

  lemma FebruaryToMarch(d: Date)
    requires d.month == 2 && d.day == DaysInMonth(d.year, 2)
    ensures DayOfWeek(NextDay(d)) == (DayOfWeek(d) + 1) % 7
  {
    var x := YearShift(d.year - 1);
    YearShiftStep(d.year);
    var leap := if IsLeapYear(d.year) then 1 else 0;
    assert NextDay(d) == Ymd(d.year, 3, 1);
    assert d.day == 28 + leap;
    assert YearShift(d.year) == x + 1 + leap;
    ShiftMod7(x, 3 + 28 + leap, 1 + leap + 2 + 1);
  }

  lemma NewYear2025()
    ensures DayOfWeek(Ymd(2025, 1, 1)) == 3
  {
  }

  // ---- formatting ---------------------------------------------------------

  function Fixed2(n: nat): (s: string)
    requires n < 100
    ensures |s| == 2
  {
    [DigitChar(n / 10), DigitChar(n % 10)]
  }

  function Fixed4(n: nat): (s: string)
    requires n < 10000
    ensures |s| == 4
  {
    Fixed2(n / 100) + Fixed2(n % 100)
  }

  /** PHP format character `Y`: at least four digits, `-` before years BCE. */
  function FormatYear(y: int): string {
    var n: nat := if y < 0 then -y else y;
    (if y < 0 then "-" else "") + (if n < 10000 then Fixed4(n) else NatToString(n))
  }

  /** Carbon toDateString(), i.e. format('Y-m-d'). */
  function ToDateString(d: Date): string {
    FormatYear(d.year) + "-" + Fixed2(d.month) + "-" + Fixed2(d.day)
  }

  function Value2(s: string): nat
    requires |s| == 2 && AllDigits(s)
  {
    DigitValue(s[0]) * 10 + DigitValue(s[1])
  }

  function Value4(s: string): nat
    requires |s| == 4 && AllDigits(s)
  {
    Value2(s[..2]) * 100 + Value2(s[2..])
  }

  /** Reads `YYYY-MM-DD` (a four-digit year) back into a calendar date. */
  function ParseDateString(s: string): (r: Option<Date>)
    ensures r.Some? ==> |s| == 10 && s[4] == '-' && s[7] == '-'
  {
    if |s| == 10 && s[4] == '-' && s[7] == '-'
       && AllDigits(s[..4]) && AllDigits(s[5..7]) && AllDigits(s[8..])
    then
      var d := Ymd(Value4(s[..4]), Value2(s[5..7]), Value2(s[8..]));
      if IsValid(d) then Some(d) else None
    else None
  }

  lemma DigitRoundTrip(n: nat)
    requires n < 10
    ensures DigitValue(DigitChar(n)) == n
  {
  }

  lemma Fixed2RoundTrip(n: nat)
    requires n < 100
    ensures AllDigits(Fixed2(n)) && Value2(Fixed2(n)) == n
  {
    DigitRoundTrip(n / 10);
    DigitRoundTrip(n % 10);
  }

  lemma Fixed4RoundTrip(n: nat)
    requires n < 10000
    ensures AllDigits(Fixed4(n)) && Value4(Fixed4(n)) == n
  {
    var s := Fixed4(n);
    assert s[..2] == Fixed2(n / 100) && s[2..] == Fixed2(n % 100);
    Fixed2RoundTrip(n / 100);
    Fixed2RoundTrip(n % 100);
  }

  /** Where the year, the month and the day sit in `Y-m-d`. */
  lemma DateStringPieces(d: Date)
    requires 0 <= d.year < 10000
    ensures |ToDateString(d)| == 10 && ToDateString(d)[4] == '-' && ToDateString(d)[7] == '-'
    ensures ToDateString(d)[..4] == Fixed4(d.year)
    ensures ToDateString(d)[5..7] == Fixed2(d.month) && ToDateString(d)[8..] == Fixed2(d.day)
  {
    var y: nat := d.year;
    var a, b, c := Fixed4(y), Fixed2(d.month), Fixed2(d.day);
    var s := ToDateString(d);
    assert FormatYear(d.year) == a;
    assert s == a + "-" + b + "-" + c;
    assert |a| == 4 && |b| == 2 && |c| == 2;
    assert s[..4] == a;
    assert s[5..7] == b;
    assert s[8..] == c;
  }

  /** `Y-m-d` is read back as the same date for years 0 to 9999. */
  lemma ParseToDateString(d: Date)
    requires 0 <= d.year < 10000
    ensures ParseDateString(ToDateString(d)) == Some(d)
  {
    var y: nat := d.year;
    DateStringPieces(d);
    Fixed4RoundTrip(y);
    Fixed2RoundTrip(d.month);
    Fixed2RoundTrip(d.day);
  }

  function MonthName(m: int): string
    requires 1 <= m <= 12
  {
    ["January", "February", "March", "April", "May", "June", "July",
     "August", "September", "October", "November", "December"][m - 1]
  }

  function MonthAbbreviation(m: int): string
    requires 1 <= m <= 12
  {
    MonthName(m)[..3]
  }

  function WeekdayName(w: int): string
    requires 0 <= w < 7
  {
    ["Sunday", "Monday", "Tuesday", "Wednesday", "Thursday", "Friday", "Saturday"][w]
  }

  /** PHP format('M j, Y'), e.g. "Jan 1, 2025". */
  function FormatShort(d: Date): string {
    MonthAbbreviation(d.month) + " " + NatToString(d.day) + ", " + FormatYear(d.year)
  }

  /** PHP format('l, F j, Y'), e.g. "Wednesday, January 1, 2025". */
  function FormatLong(d: Date): string {
    WeekdayName(DayOfWeek(d)) + ", " + MonthName(d.month) + " " + NatToString(d.day)
    + ", " + FormatYear(d.year)
  }
  lemma WeekdayPlain(w: int)
    requires 0 <= w < 7
    ensures Plain(WeekdayName(w))
  {
    if w == 0 {} else if w == 1 {} else if w == 2 {} else if w == 3 {} else if w == 4 {} else if w == 5 {} else {}
  }

  lemma MonthPlain(m: int)
    requires 1 <= m <= 12
    ensures Plain(MonthName(m))
  {
    if m <= 3 {} else if m <= 6 {} else if m <= 9 {} else {}
  }

  lemma YearPlain(y: int)
    ensures Plain(FormatYear(y))
  {
    var n: nat := if y < 0 then -y else y;
    var digits := if n < 10000 then Fixed4(n) else NatToString(n);
    if n < 10000 {
      assert forall i :: 0 <= i < 4 ==> IsDigit(digits[i]);
    } else {
      NatToStringPlain(n);
    }
    assert forall i :: 0 <= i < |digits| ==> IsDigit(digits[i]);
    if y < 0 {
      PlainConcat("-", digits);
    }
  }

  /** The long date has no line break, starts with the weekday's capital and
      ends with the last digit of the year, so a mail line that ends with it
      is filed as it is. */
  lemma FormatLongPlain(d: Date)
    ensures Plain(FormatLong(d))
  {
    var w := WeekdayName(DayOfWeek(d));
    WeekdayPlain(DayOfWeek(d));
    MonthPlain(d.month);
    NatToStringPlain(d.day);
    YearPlain(d.year);
    var prefix := w + ", " + MonthName(d.month) + " " + NatToString(d.day) + ", ";
    NoBreakAppend(w, ", ");
    NoBreakAppend(w + ", ", MonthName(d.month));
    NoBreakAppend(w + ", " + MonthName(d.month), " ");
    NoBreakAppend(w + ", " + MonthName(d.month) + " ", NatToString(d.day));
    NoBreakAppend(w + ", " + MonthName(d.month) + " " + NatToString(d.day), ", ");
    assert prefix[0] == w[0];
    PlainConcat(prefix, FormatYear(d.year));
  }

  /** The short and long formats of a worked date. */
  lemma FormatExamples()
    ensures FormatShort(Ymd(2025, 1, 1)) == "Jan 1, 2025"
    ensures FormatLong(Ymd(2025, 1, 1)) == "Wednesday, January 1, 2025"
  {
    NewYear2025();
  }

}

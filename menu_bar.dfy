/**
 * The menu-bar side of the app: the status item's title, "<date> (<count>)",
 * where the count is the number of tasks stored for today, and the popover
 * that the status item opens and closes.
 */
module MenuBarApp {
  import opened Wrappers
  import opened DayKeys
  import opened Tasks
  import opened CalendarViewState

  /** The number of tasks stored for the day of `now`; 0 when that day has no entry. */
  function TaskCount(m: Store, now: Timestamp): (n: nat)
    ensures n == |TasksOn(m, now)|
    ensures StartOfDay(now) !in m ==> n == 0
    ensures StartOfDay(now) in m ==> n == |m[StartOfDay(now)]|
  {
    var today := StartOfDay(now);
    if today in m then |m[today]| else 0
  }

  // ---------------------------------------------------------------------------
  // Decimal rendering of the count (string interpolation of an `Int`)

  predicate IsDigit(c: char) {
    '0' <= c <= '9'
  }

  function DigitChar(d: nat): (c: char)
    requires d < 10
    ensures IsDigit(c)
  {
    (48 + d) as char
  }

  function DigitValue(c: char): (d: nat)
    requires IsDigit(c)
    ensures d < 10
  {
    c as int - 48
  }

  /** The decimal digits of `n`, most significant first, without leading zeros. */
  function NatToString(n: nat): (s: string)
    ensures |s| >= 1
    ensures forall i :: 0 <= i < |s| ==> IsDigit(s[i])
    ensures |s| > 1 ==> s[0] != '0'
  {
    if n < 10 then [DigitChar(n)] else NatToString(n / 10) + [DigitChar(n % 10)]
  }

  /** The number a string of decimal digits denotes. */
  function ParseNat(s: string): nat
    requires forall i :: 0 <= i < |s| ==> IsDigit(s[i])
  {
    if s == [] then 0 else ParseNat(s[..|s| - 1]) * 10 + DigitValue(s[|s| - 1])
  }

  /** Reading the rendered count back gives the count. */
  lemma {:induction false} NatToStringRoundTrip(n: nat)
    ensures ParseNat(NatToString(n)) == n
  {
    if n >= 10 {
      var s := NatToString(n);
      assert s[..|s| - 1] == NatToString(n / 10);
      NatToStringRoundTrip(n / 10);
    }
  }

  // ---------------------------------------------------------------------------
  // The status title

  /**
   * The title `updateStatusItemTitle` shows: `format(now)`, the "MMM d"
   * rendering of the date, then the count of today's tasks in parentheses.
   */
  function StatusTitle(m: Store, now: Timestamp, format: Timestamp -> string): (title: string)
    ensures |title| == |format(now)| + |NatToString(TaskCount(m, now))| + 3
  {
    format(now) + " (" + NatToString(TaskCount(m, now)) + ")"
  }

  /**
   * Reads a count back out of a title whose date part is `dateLength`
   * characters long: it must continue with " (", then digits, then ")".
   */
  function TitleCount(title: string, dateLength: nat): (r: Option<nat>)
  {
    if |title| < dateLength + 4 || title[dateLength..dateLength + 2] != " (" || title[|title| - 1] != ')' then None
    else
      var digits := title[dateLength + 2..|title| - 1];
      if forall i :: 0 <= i < |digits| ==> IsDigit(digits[i]) then Some(ParseNat(digits)) else None
  }

  /** The title starts with the formatted date and carries exactly today's count. */
  lemma StatusTitleParses(m: Store, now: Timestamp, format: Timestamp -> string)
    ensures StatusTitle(m, now, format)[..|format(now)|] == format(now)
    ensures TitleCount(StatusTitle(m, now, format), |format(now)|) == Some(TaskCount(m, now))
  {
    var title := StatusTitle(m, now, format);
    var f := format(now);
    var digits := NatToString(TaskCount(m, now));
    assert title[|f|..|f| + 2] == " (";
    assert title[|f| + 2..|title| - 1] == digits;
    NatToStringRoundTrip(TaskCount(m, now));
  }

  /**
   * The title as `updateStatusItemTitle` builds it: the count is taken for the
   * day of one clock reading (`countTime`) and the date is formatted from a
   * second, later reading (`labelTime`).
   */
  function StatusTitleAsWritten(m: Store, countTime: Timestamp, labelTime: Timestamp, format: Timestamp -> string): (title: string)
    ensures SameDay(countTime, labelTime) ==> title == StatusTitle(m, labelTime, format)
  {
    SameDayIffSameKey(countTime, labelTime);
    format(labelTime) + " (" + NatToString(TaskCount(m, countTime)) + ")"
  }

  /**
   * When the two readings straddle midnight, the title names the new day but
   * carries the old day's count: one task stored for day 0, read at 23:59:59
   * and labelled at 00:00:00 of day 1, shows a count of 1 beside a date that
   * has no tasks.
   */
  lemma AsWrittenTitleMismatch(format: Timestamp -> string)
    ensures var m := map[0 := [Task(0, "x")]];
            var title := StatusTitleAsWritten(m, SecondsPerDay - 1, SecondsPerDay, format);
            && TitleCount(title, |format(SecondsPerDay)|) == Some(1)
            && TaskCount(m, SecondsPerDay) == 0
  {
    var m := map[0 := [Task(0, "x")]];
    assert StartOfDay(SecondsPerDay - 1) == 0;
    assert StartOfDay(SecondsPerDay) == SecondsPerDay;
    var f := format(SecondsPerDay);
    var title := StatusTitleAsWritten(m, SecondsPerDay - 1, SecondsPerDay, format);
    assert NatToString(1) == "1";
    assert title == f + " (1)";
    assert title[|f|..|f| + 2] == " (";
    assert title[|f| + 2..|title| - 1] == "1";
    assert ParseNat("1") == 1 by {
      assert "1"[..0] == [];
    }
  }

  /** With "Jan 5" as the date, two tasks today give "Jan 5 (2)" and none give "Jan 5 (0)". */
  lemma StatusTitleExamples(m: Store, now: Timestamp, format: Timestamp -> string)
    requires format(now) == "Jan 5"
    ensures |TasksOn(m, now)| == 2 ==> StatusTitle(m, now, format) == "Jan 5 (2)"
    ensures StartOfDay(now) !in m ==> StatusTitle(m, now, format) == "Jan 5 (0)"
  {
    assert NatToString(2) == "2";
    assert NatToString(0) == "0";
  }

  /** Adding a task for today raises the count by one; adding it to another day leaves the count alone. */
  lemma TaskCountAfterAdd(m: Store, now: Timestamp, day: DayKey, t: Task)
    ensures TaskCount(AddToDay(m, day, t), now) ==
            if day == StartOfDay(now) then TaskCount(m, now) + 1 else TaskCount(m, now)
  {
  }

  /** Deleting from another day leaves today's count alone; deleting from today never raises it. */
  lemma TaskCountAfterRemove(m: Store, now: Timestamp, day: DayKey, id: TaskId)
    ensures day != StartOfDay(now) ==> TaskCount(RemoveFromDay(m, day, id), now) == TaskCount(m, now)
    ensures TaskCount(RemoveFromDay(m, day, id), now) <= TaskCount(m, now)
  {
  }

  // ---------------------------------------------------------------------------
  // The application delegate

  class AppDelegate {
    /** The calendar view hosted in the popover, whose tasks the title summarises. */
    const view: CalendarView
    /** Whether the status item has a button (`statusItem.button != nil`). */
    const hasButton: bool
    /** Whether the popover is shown. */
    var shown: bool
    /** The status item button's title. */
    var title: string

    /**
     * `applicationDidFinishLaunching`: the popover starts closed and the
     * title is computed once.
     */
    constructor (view: CalendarView, hasButton: bool, now: Timestamp, format: Timestamp -> string)
      ensures this.view == view && this.hasButton == hasButton
      ensures !shown
      ensures title == if hasButton then StatusTitle(view.tasks, now, format) else ""
    {
      this.view := view;
      this.hasButton := hasButton;
      shown := false;
      title := "";
      new;
      UpdateStatusItemTitle(now, format);
    }

    /** `updateStatusItemTitle()`: recompute the title from the view's tasks. */
    method UpdateStatusItemTitle(now: Timestamp, format: Timestamp -> string)
      modifies this`title
      ensures title == if hasButton then StatusTitle(view.tasks, now, format) else old(title)
    {
      if hasButton {
        title := StatusTitle(view.tasks, now, format);
      }
    }

    /**
     * `togglePopover(_:)`: a shown popover is closed and the title kept; a
     * closed one is opened and the title recomputed. Without a button
     * nothing happens.
     */
    method TogglePopover(now: Timestamp, format: Timestamp -> string)
      modifies this`shown, this`title
      ensures !hasButton ==> shown == old(shown) && title == old(title)
      ensures hasButton && old(shown) ==> !shown && title == old(title)
      ensures hasButton && !old(shown) ==> shown && title == StatusTitle(view.tasks, now, format)
    {
      if hasButton {
        if shown {
          shown := false;
        } else {
          shown := true;
          UpdateStatusItemTitle(now, format);
        }
      }
    }
  }
}

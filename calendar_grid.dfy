/**
 * The month grid of the calendar view: one slot per cell of a seven-column,
 * Sunday-first table, padded with empty slots before the first day of the
 * month and after its last day.
 */
module CalendarGrid {
  import opened Wrappers
  import opened DayKeys

  /** A grid cell: a day, or padding. */
  type Slot = Option<Timestamp>

  /** The number of cells: `firstWeekday + count` rounded up to whole weeks. */
  function PaddedSlots(firstWeekday: nat, count: nat): (n: nat)
    ensures n % 7 == 0
    ensures firstWeekday + count <= n < firstWeekday + count + 7
  {
    (firstWeekday + count + 6) / 7 * 7
  }

  /**
   * The layout the grid must have: cell `firstWeekday + d` holds the day `d`
   * days after `first` for every `d < count`; every other cell is padding.
   */
  function Layout(firstWeekday: nat, count: nat, first: Timestamp): (g: seq<Slot>)
    ensures |g| == PaddedSlots(firstWeekday, count)
  {
    seq(PaddedSlots(firstWeekday, count),
        i => if firstWeekday <= i < firstWeekday + count then Some(AddDays(first, i - firstWeekday)) else None)
  }

  /** The number of cells that hold a day. */
  function Filled(g: seq<Slot>): nat {
    if g == [] then 0 else Filled(g[..|g| - 1]) + (if g[|g| - 1].Some? then 1 else 0)
  }

  /**
   * `CalendarGrid.generateDaysInMonth(for:)`. `range` is the day count the
   * calendar reports for the month (`range(of: .day, in: .month, for:)`),
   * `firstDayOfMonth` the month's first day; either may be missing, and then
   * the grid is empty.
   */
  method GenerateDaysInMonth(range: Option<nat>, firstDayOfMonth: Option<Timestamp>)
    returns (days: seq<Slot>)
    ensures range.None? || firstDayOfMonth.None? ==> days == []
    ensures range.Some? && firstDayOfMonth.Some? ==>
              days == Layout(Weekday(firstDayOfMonth.value) - 1, range.value, firstDayOfMonth.value)
  {
    if range.None? || firstDayOfMonth.None? {
      return [];
    }
    var count := range.value;
    var first := firstDayOfMonth.value;
    var firstWeekday := Weekday(first) - 1;
    var paddedSlots := PaddedSlots(firstWeekday, count);
    var a := new Slot[paddedSlots](_ => None);
    for day := 0 to count
      invariant forall i :: 0 <= i < a.Length ==>
                  a[i] == if firstWeekday <= i < firstWeekday + day then Some(AddDays(first, i - firstWeekday)) else None
    {
      a[firstWeekday + day] := Some(AddDays(first, day));
    }
    days := a[..];
  }

  /** Every cell before `firstWeekday` and every cell after the month's last day is padding. */
  lemma LayoutPadding(firstWeekday: nat, count: nat, first: Timestamp, i: nat)
    requires i < |Layout(firstWeekday, count, first)|
    ensures Layout(firstWeekday, count, first)[i].None? <==> i < firstWeekday || firstWeekday + count <= i
  {
  }

  /** Exactly `count` cells hold a day. */
  lemma LayoutFilled(firstWeekday: nat, count: nat, first: Timestamp)
    ensures Filled(Layout(firstWeekday, count, first)) == count
  {
    var g := Layout(firstWeekday, count, first);
    FilledBand(g, firstWeekday, firstWeekday + count);
  }

  /** A grid whose filled cells are exactly those in `[lo, hi)` has `hi - lo` filled cells, as far as it reaches. */
  lemma {:induction false} FilledBand(g: seq<Slot>, lo: nat, hi: nat)
    requires lo <= hi
    requires forall i :: 0 <= i < |g| ==> (g[i].Some? <==> lo <= i < hi)
    ensures Filled(g) == if |g| <= lo then 0 else if |g| <= hi then |g| - lo else hi - lo
  {
    if g != [] {
      var p := g[..|g| - 1];
      assert forall i :: 0 <= i < |p| ==> p[i] == g[i];
      FilledBand(p, lo, hi);
    }
  }

  /** The days in the grid run in increasing order, one day apart, from the first of the month. */
  lemma LayoutIncreasing(firstWeekday: nat, count: nat, first: Timestamp, i: nat, j: nat)
    requires i < j < |Layout(firstWeekday, count, first)|
    requires Layout(firstWeekday, count, first)[i].Some? && Layout(firstWeekday, count, first)[j].Some?
    ensures Layout(firstWeekday, count, first)[j].value - Layout(firstWeekday, count, first)[i].value
            == (j - i) * SecondsPerDay
    ensures Layout(firstWeekday, count, first)[i].value < Layout(firstWeekday, count, first)[j].value
  {
    var g := Layout(firstWeekday, count, first);
    assert g[i] == Some(AddDays(first, i - firstWeekday));
    assert g[j] == Some(AddDays(first, j - firstWeekday));
    assert (j - firstWeekday) * SecondsPerDay == (i - firstWeekday) * SecondsPerDay + (j - i) * SecondsPerDay;
  }

  /** The first filled cell is at `firstWeekday` and holds the first of the month. */
  lemma LayoutStartsAtOffset(firstWeekday: nat, count: nat, first: Timestamp)
    requires count > 0
    ensures Layout(firstWeekday, count, first)[firstWeekday] == Some(first)
    ensures forall i :: 0 <= i < firstWeekday ==> Layout(firstWeekday, count, first)[i].None?
  {
    assert AddDays(first, firstWeekday - firstWeekday) == first;
  }

  /**
   * Each day lands in the column of its weekday: for a grid built from a first
   * day whose weekday is `firstWeekday + 1`, the day in cell `i` has weekday
   * `i % 7 + 1` (column 0 is Sunday).
   */
  lemma LayoutColumnIsWeekday(count: nat, first: Timestamp, i: nat)
    requires i < |Layout(Weekday(first) - 1, count, first)|
    requires Layout(Weekday(first) - 1, count, first)[i].Some?
    ensures Weekday(Layout(Weekday(first) - 1, count, first)[i].value) == i % 7 + 1
  {
    var fw := Weekday(first) - 1;
    WeekdayAddDays(first, i - fw);
  }

  /**
   * A 31-day month starting on a Wednesday fills five weeks: three empty
   * slots, the 31 days in order, and one empty slot.
   */
  lemma WednesdayMonth(first: Timestamp)
    requires Weekday(first) == 4
    ensures var g := Layout(Weekday(first) - 1, 31, first);
            && |g| == 35 && g[0] == g[1] == g[2] == g[34] == None
            && forall d :: 0 <= d < 31 ==> g[3 + d] == Some(AddDays(first, d))
  {
  }
}

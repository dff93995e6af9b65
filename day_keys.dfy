/**
 * The day-key normaliser and the little calendar arithmetic the core relies on.
 *
 * A timestamp is a whole number of seconds since 1970-01-01 00:00 in the
 * host's local time. A day key is the timestamp of the midnight that starts a
 * day, the value `Calendar.startOfDay(for:)` produces and the only kind of
 * value used as a key in the task store.
 */
module DayKeys {

  type Timestamp = int

  /** A timestamp that is the start of its own day. */
  type DayKey = int

  const SecondsPerDay: int := 86400

  /** The number of whole days between the epoch and the day holding `t`. */
  function DayNumber(t: Timestamp): int {
    t / SecondsPerDay
  }

  /** `Calendar.startOfDay(for:)`: the midnight at or before `t`. */
  function StartOfDay(t: Timestamp): (k: DayKey)
    ensures k <= t < k + SecondsPerDay
    ensures k % SecondsPerDay == 0
  {
    t - t % SecondsPerDay
  }

  /** Two timestamps lie on the same calendar day. */
  predicate SameDay(t1: Timestamp, t2: Timestamp) {
    DayNumber(t1) == DayNumber(t2)
  }

  /** `Calendar.date(byAdding: .day, value: n, to: t)`. */
  function AddDays(t: Timestamp, n: int): (r: Timestamp)
    ensures DayNumber(r) == DayNumber(t) + n
    ensures r - StartOfDay(r) == t - StartOfDay(t)
  {
    t + n * SecondsPerDay
  }

  /**
   * `Calendar.component(.weekday, from: t)` in the Gregorian calendar:
   * 1 is Sunday and 7 is Saturday. 1970-01-01 was a Thursday (5).
   */
  function Weekday(t: Timestamp): (w: int)
    ensures 1 <= w <= 7
  {
    (DayNumber(t) + 4) % 7 + 1
  }

  /** A start of day is its own start of day: normalising twice changes nothing. */
  lemma StartOfDayIdempotent(t: Timestamp)
    ensures StartOfDay(StartOfDay(t)) == StartOfDay(t)
  {
  }

  /** Two timestamps get the same key exactly when they lie on the same day. */
  lemma SameDayIffSameKey(t1: Timestamp, t2: Timestamp)
    ensures SameDay(t1, t2) <==> StartOfDay(t1) == StartOfDay(t2)
  {
    DayNumberOfStart(t1);
    DayNumberOfStart(t2);
  }

  /** The key of `t` is its day number scaled back to seconds. */
  lemma DayNumberOfStart(t: Timestamp)
    ensures StartOfDay(t) == DayNumber(t) * SecondsPerDay
  {
  }

  /** Keys are ordered as the timestamps they come from. */
  lemma StartOfDayMonotone(t1: Timestamp, t2: Timestamp)
    requires t1 <= t2
    ensures StartOfDay(t1) <= StartOfDay(t2)
  {
    DayNumberOfStart(t1);
    DayNumberOfStart(t2);
    assert DayNumber(t1) <= DayNumber(t2);
  }

  /** Adding `n` days to a day's start gives the start of the day `n` days on. */
  lemma AddDaysKeepsStart(t: Timestamp, n: int)
    ensures StartOfDay(AddDays(StartOfDay(t), n)) == AddDays(StartOfDay(t), n)
  {
  }

  /** The weekday of the day `n` days after `t` is `n` places further round the week. */
  lemma WeekdayAddDays(t: Timestamp, n: int)
    ensures Weekday(AddDays(t, n)) == (Weekday(t) - 1 + n) % 7 + 1
  {
    var d := DayNumber(t);
    ModShift(d + 4, n);
  }

  /** Moving a number along by `n` and reducing it modulo 7 commutes with reducing first. */
  lemma ModShift(a: int, n: int)
    ensures (a + n) % 7 == (a % 7 + n) % 7
  {
    var q := a / 7;
    assert a == q * 7 + a % 7;
    assert a + n == (a % 7 + n) + q * 7;
    ModAddMultiple(a % 7 + n, q);
  }

  lemma ModAddMultiple(x: int, q: int)
    ensures (x + q * 7) % 7 == x % 7
  {
  }
}

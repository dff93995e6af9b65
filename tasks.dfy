/**
 * The task store as values: tasks, the title trimming rule, and the effect of
 * adding and deleting on the map from day keys to task lists.
 */
module Tasks {
  import opened Wrappers
  import opened DayKeys

  /** The stand-in for a `UUID`; fresh ones come from a counter. */
  type TaskId = nat

  /** `struct Task`: an identifier and a title. */
  datatype Task = Task(id: TaskId, title: string)

  /** The `[Date: [Task]]` dictionary: each day key maps to its tasks in display order. */
  type Store = map<DayKey, seq<Task>>

  /** An empty day is represented by the absence of its key, never by an empty list. */
  ghost predicate NoEmptyDays(m: Store) {
    forall d :: d in m ==> m[d] != []
  }

  /** Every task in the store has an identifier below `bound`. */
  ghost predicate IdsBelow(m: Store, bound: TaskId) {
    forall d, t :: d in m && t in m[d] ==> t.id < bound
  }

  /** Some task in `s` has identifier `id`. */
  predicate HasId(s: seq<Task>, id: TaskId) {
    exists t :: t in s && t.id == id
  }

  /** No list of a store whose identifiers are all below `bound` holds `bound`. */
  lemma BoundIsUnused(m: Store, bound: TaskId)
    requires IdsBelow(m, bound)
    ensures forall d :: d in m ==> !HasId(m[d], bound)
  {
  }

  // ---------------------------------------------------------------------------
  // Trimming (`trimmingCharacters(in: .whitespaces)`)

  /**
   * A member of `CharacterSet.whitespaces`: the tab and the Unicode space
   * separators (general category Zs). Line breaks are not included.
   */
  predicate IsWhitespace(c: char) {
    || c == '\t' || c == ' ' || c == '\U{00A0}' || c == '\U{1680}'
    || ('\U{2000}' <= c <= '\U{200A}')
    || c == '\U{202F}' || c == '\U{205F}' || c == '\U{3000}'
  }

  /** The space and the tab are whitespace; the line breaks are not. */
  lemma WhitespaceMembers()
    ensures IsWhitespace(' ') && IsWhitespace('\t')
    ensures !IsWhitespace('\n') && !IsWhitespace('\r')
  {
  }

  predicate AllWhitespace(s: string) {
    forall i :: 0 <= i < |s| ==> IsWhitespace(s[i])
  }

  /** Drops the leading whitespace of `s`. */
  function TrimStart(s: string): (r: string)
    ensures |r| <= |s| && r == s[|s| - |r|..]
    ensures AllWhitespace(s[..|s| - |r|])
    ensures r == [] || !IsWhitespace(r[0])
  {
    if s != [] && IsWhitespace(s[0]) then
      var r := TrimStart(s[1..]);
      assert s[..|s| - |r|] == [s[0]] + s[1..][..|s| - 1 - |r|];
      r
    else s
  }

  /** Drops the trailing whitespace of `s`. */
  function TrimEnd(s: string): (r: string)
    ensures |r| <= |s| && r == s[..|r|]
    ensures AllWhitespace(s[|r|..])
    ensures r == [] || !IsWhitespace(r[|r| - 1])
  {
    if s != [] && IsWhitespace(s[|s| - 1]) then
      var r := TrimEnd(s[..|s| - 1]);
      assert s[|r|..] == s[..|s| - 1][|r|..] + [s[|s| - 1]];
      r
    else s
  }

  /**
   * `s` with its leading and trailing whitespace removed: neither end of the
   * result is whitespace, and `TrimIsInfix` shows it is the piece of `s` that
   * only whitespace surrounds.
   */
  function Trim(s: string): (r: string)
    ensures |r| <= |s|
    ensures r == [] || (!IsWhitespace(r[0]) && !IsWhitespace(r[|r| - 1]))
  {
    TrimEnd(TrimStart(s))
  }

  /** The trimmed title is a contiguous piece of the title, with only whitespace around it. */
  lemma TrimIsInfix(s: string)
    ensures exists i, j :: 0 <= i <= j <= |s| && Trim(s) == s[i..j] && AllWhitespace(s[..i]) && AllWhitespace(s[j..])
  {
    var u := TrimStart(s);
    var r := TrimEnd(u);
    var i := |s| - |u|;
    assert r == s[i..i + |r|];
    assert s[i + |r|..] == u[|r|..];
  }

  /** Trimming yields the empty title exactly when the title is all whitespace. */
  lemma TrimEmptyIff(s: string)
    ensures Trim(s) == [] <==> AllWhitespace(s)
  {
    var r := Trim(s);
    TrimIsInfix(s);
    var i, j :| 0 <= i <= j <= |s| && r == s[i..j] && AllWhitespace(s[..i]) && AllWhitespace(s[j..]);
    if r == [] {
      forall k | 0 <= k < |s| ensures IsWhitespace(s[k]) {
        if k < i { assert s[k] == s[..i][k]; } else { assert s[k] == s[j..][k - j]; }
      }
    }
  }

  /** Trimming a trimmed title changes nothing. */
  lemma TrimIdempotent(s: string)
    ensures Trim(Trim(s)) == Trim(s)
  {
    var r := Trim(s);
    TrimStartNoop(r);
    TrimEndNoop(r);
  }

  lemma TrimStartNoop(s: string)
    requires s == [] || !IsWhitespace(s[0])
    ensures TrimStart(s) == s
  {
  }

  lemma TrimEndNoop(s: string)
    requires s == [] || !IsWhitespace(s[|s| - 1])
    ensures TrimEnd(s) == s
  {
  }

  /** `" Buy milk "` is stored as `"Buy milk"`; `""` and `"   "` are rejected. */
  lemma TrimExamples()
    ensures Trim(" Buy milk ") == "Buy milk"
    ensures Trim("") == [] && Trim("   ") == []
  {
    var s := " Buy milk ";
    assert TrimStart(s[1..]) == s[1..];
    assert TrimStart(s) == s[1..];
    assert s[1..][..|s| - 2] == "Buy milk";
    assert TrimEnd("Buy milk") == "Buy milk";
    assert TrimEnd(s[1..]) == "Buy milk";
    TrimEmptyIff("   ");
  }

  // ---------------------------------------------------------------------------
  // Lists of tasks

  /** `removeAll { $0.id == id }`: the tasks without identifier `id`, in their order. */
  function RemoveAll(s: seq<Task>, id: TaskId): (r: seq<Task>)
    ensures |r| <= |s|
    ensures forall t :: t in r <==> t in s && t.id != id
  {
    if s == [] then []
    else if s[0].id == id then RemoveAll(s[1..], id)
    else [s[0]] + RemoveAll(s[1..], id)
  }

  /** Removal works piecewise, so the tasks that remain keep their relative order. */
  lemma {:induction false} RemoveAllAppend(a: seq<Task>, b: seq<Task>, id: TaskId)
    ensures RemoveAll(a + b, id) == RemoveAll(a, id) + RemoveAll(b, id)
  {
    if a != [] {
      assert (a + b)[0] == a[0];
      assert (a + b)[1..] == a[1..] + b;
      RemoveAllAppend(a[1..], b, id);
    } else {
      assert a + b == b;
    }
  }

  /** Removing an identifier that no task carries leaves the list as it was. */
  lemma {:induction false} RemoveAllAbsent(s: seq<Task>, id: TaskId)
    requires !HasId(s, id)
    ensures RemoveAll(s, id) == s
  {
    if s != [] {
      assert forall t :: t in s[1..] ==> t in s;
      RemoveAllAbsent(s[1..], id);
    }
  }

  /** Removing the same identifier twice removes nothing more. */
  lemma RemoveAllIdempotent(s: seq<Task>, id: TaskId)
    ensures RemoveAll(RemoveAll(s, id), id) == RemoveAll(s, id)
  {
    RemoveAllAbsent(RemoveAll(s, id), id);
  }

  // ---------------------------------------------------------------------------
  // The store

  /**
   * What `addTask` does to the dictionary: append `t` to the list of `day`,
   * creating a one-element list if the day has none.
   */
  function AddToDay(m: Store, day: DayKey, t: Task): (r: Store)
    ensures r.Keys == m.Keys + {day}
    ensures r[day] == (if day in m then m[day] else []) + [t]
    ensures forall d :: d in m && d != day ==> r[d] == m[d]
  {
    if day in m then m[day := m[day] + [t]] else m[day := [t]]
  }

  /**
   * What `deleteTask` does to the dictionary: drop every task with identifier
   * `id` from the list of `day`, and drop the day if its list becomes empty.
   */
  function RemoveFromDay(m: Store, day: DayKey, id: TaskId): (r: Store)
    ensures r.Keys <= m.Keys && m.Keys - r.Keys <= {day}
    ensures forall d :: d in m && d != day ==> d in r && r[d] == m[d]
    ensures day in r ==> day in m && r[day] == RemoveAll(m[day], id) && r[day] != []
    ensures day in m && day !in r ==> RemoveAll(m[day], id) == []
  {
    if day !in m then m
    else
      var rest := RemoveAll(m[day], id);
      if rest == [] then m - {day} else m[day := rest]
  }

  /** `tasks[startOfDay(date)] ?? []`: the tasks stored for the day of `date`, or none. */
  function TasksOn(m: Store, date: Timestamp): (r: seq<Task>)
    ensures StartOfDay(date) in m ==> r == m[StartOfDay(date)]
    ensures StartOfDay(date) !in m ==> r == []
  {
    var key := StartOfDay(date);
    if key in m then m[key] else []
  }

  /**
   * The lookup of the task list (CalendarView line 41): the list for the day
   * of `date` when there is one and it is not empty; otherwise `None`, shown
   * as "No tasks for this day".
   */
  function ShownTasks(m: Store, date: Timestamp): (r: Option<seq<Task>>)
    ensures r.Some? ==> r.value != [] && r.value == TasksOn(m, date)
    ensures r.None? ==> TasksOn(m, date) == []
  {
    var key := StartOfDay(date);
    if key in m && m[key] != [] then Some(m[key]) else None
  }

  /** Every moment of one day sees the same task list. */
  lemma TasksOnSameDay(m: Store, t1: Timestamp, t2: Timestamp)
    requires SameDay(t1, t2)
    ensures TasksOn(m, t1) == TasksOn(m, t2)
  {
    SameDayIffSameKey(t1, t2);
  }

  /** Adding keeps every list non-empty. */
  lemma AddKeepsNoEmptyDays(m: Store, day: DayKey, t: Task)
    requires NoEmptyDays(m)
    ensures NoEmptyDays(AddToDay(m, day, t))
  {
  }

  /** Deleting keeps every list non-empty. */
  lemma RemoveKeepsNoEmptyDays(m: Store, day: DayKey, id: TaskId)
    requires NoEmptyDays(m)
    ensures NoEmptyDays(RemoveFromDay(m, day, id))
  {
  }

  /** When no list is empty, a day shows "no tasks" exactly when it has no entry. */
  lemma ShownTasksNoneIff(m: Store, date: Timestamp)
    requires NoEmptyDays(m)
    ensures ShownTasks(m, date).None? <==> StartOfDay(date) !in m
  {
  }

  /** Deleting from a day that has no entry changes nothing. */
  lemma RemoveFromAbsentDay(m: Store, day: DayKey, id: TaskId)
    requires day !in m
    ensures RemoveFromDay(m, day, id) == m
  {
  }

  /** Deleting an identifier the day's list does not hold changes nothing, unless that list is empty. */
  lemma RemoveAbsentId(m: Store, day: DayKey, id: TaskId)
    requires day in m ==> m[day] != [] && !HasId(m[day], id)
    ensures RemoveFromDay(m, day, id) == m
  {
    if day in m {
      RemoveAllAbsent(m[day], id);
      assert m[day := m[day]] == m;
    }
  }

  /**
   * Deleting a task just added, with an identifier new to its day, gives back
   * the store as it was, provided the day's list was not empty. With a day
   * without an entry this is the "add then delete leaves no entry" behaviour.
   */
  lemma AddThenRemove(m: Store, day: DayKey, t: Task)
    requires day in m ==> m[day] != [] && !HasId(m[day], t.id)
    ensures RemoveFromDay(AddToDay(m, day, t), day, t.id) == m
  {
    var m' := AddToDay(m, day, t);
    var before := if day in m then m[day] else [];
    RemoveAllAppend(before, [t], t.id);
    assert RemoveAll([t], t.id) == [];
    if day in m {
      RemoveAllAbsent(m[day], t.id);
      assert RemoveAll(m'[day], t.id) == m[day] + [];
      assert m[day] + [] == m[day] != [];
      assert m'[day := m[day]] == m;
    } else {
      assert m' - {day} == m;
    }
  }

  /** Deleting the same identifier from the same day twice is the same as once. */
  lemma RemoveFromDayIdempotent(m: Store, day: DayKey, id: TaskId)
    ensures RemoveFromDay(RemoveFromDay(m, day, id), day, id) == RemoveFromDay(m, day, id)
  {
    var r := RemoveFromDay(m, day, id);
    if day in r {
      RemoveAllIdempotent(m[day], id);
      assert r[day := r[day]] == r;
    }
  }

  /** Adding and deleting keep every identifier below the counter, once it has moved past the new one. */
  lemma AddKeepsIdsBelow(m: Store, day: DayKey, t: Task, bound: TaskId)
    requires IdsBelow(m, bound) && t.id < bound
    ensures IdsBelow(AddToDay(m, day, t), bound)
  {
  }

  lemma RemoveKeepsIdsBelow(m: Store, day: DayKey, id: TaskId, bound: TaskId)
    requires IdsBelow(m, bound)
    ensures IdsBelow(RemoveFromDay(m, day, id), bound)
  {
  }
}

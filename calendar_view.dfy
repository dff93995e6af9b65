/**
 * The state of the calendar view: the selected day, the task dictionary, the
 * text of the new-task field, and the stand-ins for the identifier generator
 * and the persistent slot.
 */
module CalendarViewState {
  import opened Wrappers
  import opened DayKeys
  import opened Tasks

  /**
   * An upper bound on the identifiers in `m`, so that identifiers issued from
   * it on are new. It stands for the uniqueness of freshly generated `UUID`s.
   */
  method IdCeiling(m: Store) returns (n: TaskId)
    ensures IdsBelow(m, n)
  {
    n := 0;
    var pending := m.Keys;
    while pending != {}
      invariant pending <= m.Keys
      invariant forall d, t :: d in m && d !in pending && t in m[d] ==> t.id < n
      decreases pending
    {
      if forall d :: d !in pending {
        assert false;  // the loop guard says some key is pending
      }
      var d :| d in pending;
      var s := m[d];
      ghost var before := n;
      for i := 0 to |s|
        invariant before <= n
        invariant forall k :: 0 <= k < i ==> s[k].id < n
      {
        if n <= s[i].id {
          n := s[i].id + 1;
        }
      }
      pending := pending - {d};
    }
  }

  class CalendarView {
    /** The day whose tasks are listed; initially "now". */
    var selectedDate: Timestamp
    /** The task dictionary. */
    var tasks: Store
    /** The text of the new-task field. */
    var newTaskTitle: string
    /** The next identifier to hand out. */
    var nextId: TaskId
    /** Every snapshot written to the persistent slot, oldest first. */
    var saved: seq<Store>

    /** Every identifier in the store was handed out before `nextId`. */
    ghost predicate Valid()
      reads this
    {
      IdsBelow(tasks, nextId)
    }

    /**
     * `init()`: `decoded` is the dictionary decoded from the persistent slot,
     * or `None` when the slot is empty or does not decode; the view then
     * starts with an empty dictionary.
     */
    constructor (decoded: Option<Store>, now: Timestamp)
      ensures Valid()
      ensures tasks == (if decoded.Some? then decoded.value else map[])
      ensures selectedDate == now && newTaskTitle == "" && saved == []
    {
      var loaded := decoded.GetOr(map[]);
      var bound := IdCeiling(loaded);
      tasks := loaded;
      selectedDate := now;
      newTaskTitle := "";
      nextId := bound;
      saved := [];
    }

    /** The new-task text field writes its text here. */
    method SetNewTaskTitle(text: string)
      modifies this`newTaskTitle
      ensures newTaskTitle == text
    {
      newTaskTitle := text;
    }

    /** A tap on a day of the grid, or the Today button, selects that day. */
    method SelectDate(date: Timestamp)
      modifies this`selectedDate
      ensures selectedDate == date
    {
      selectedDate := date;
    }

    /** `saveTasks()`: write the whole dictionary to the persistent slot. */
    method SaveTasks()
      modifies this`saved
      ensures saved == old(saved) + [tasks]
    {
      saved := saved + [tasks];
    }

    /**
     * `addTask()`: a title that is empty once trimmed changes nothing.
     * Otherwise a new task with the trimmed title and a fresh identifier goes
     * at the end of the selected day's list, the text field is cleared and
     * the dictionary is saved.
     */
    method AddTask()
      requires Valid()
      modifies this`tasks, this`newTaskTitle, this`nextId, this`saved
      ensures Valid()
      ensures Trim(old(newTaskTitle)) == [] ==>
                tasks == old(tasks) && newTaskTitle == old(newTaskTitle) && nextId == old(nextId) && saved == old(saved)
      ensures Trim(old(newTaskTitle)) != [] ==>
                && tasks == AddToDay(old(tasks), StartOfDay(selectedDate), Task(old(nextId), Trim(old(newTaskTitle))))
                && newTaskTitle == ""
                && nextId == old(nextId) + 1
                && saved == old(saved) + [tasks]
      ensures forall d :: d in old(tasks) ==> !HasId(old(tasks)[d], old(nextId))
      ensures NoEmptyDays(old(tasks)) ==> NoEmptyDays(tasks)
    {
      BoundIsUnused(tasks, nextId);
      var trimmedTitle := Trim(newTaskTitle);
      if trimmedTitle != [] {
        var task := Task(nextId, trimmedTitle);
        nextId := nextId + 1;
        var startOfDay := StartOfDay(selectedDate);
        if startOfDay in tasks {
          var existingTasks := tasks[startOfDay];
          existingTasks := existingTasks + [task];
          tasks := tasks[startOfDay := existingTasks];
        } else {
          tasks := tasks[startOfDay := [task]];
        }
        AddKeepsIdsBelow(old(tasks), startOfDay, task, nextId);
        if NoEmptyDays(old(tasks)) {
          AddKeepsNoEmptyDays(old(tasks), startOfDay, task);
        }
        newTaskTitle := "";
        SaveTasks();
      }
    }

    /**
     * `deleteTask(_:for:)`: when the day of `date` has an entry, every task
     * with the identifier of `task` leaves its list, the day is dropped if
     * nothing remains, and the dictionary is saved (even if no task matched).
     * When the day has no entry nothing happens.
     */
    method DeleteTask(task: Task, date: Timestamp)
      requires Valid()
      modifies this`tasks, this`saved
      ensures Valid()
      ensures tasks == RemoveFromDay(old(tasks), StartOfDay(date), task.id)
      ensures saved == if StartOfDay(date) in old(tasks) then old(saved) + [tasks] else old(saved)
      ensures NoEmptyDays(old(tasks)) ==> NoEmptyDays(tasks)
    {
      var startOfDay := StartOfDay(date);
      if startOfDay in tasks {
        var existingTasks := tasks[startOfDay];
        existingTasks := RemoveAll(existingTasks, task.id);
        if existingTasks == [] {
          tasks := tasks - {startOfDay};
        } else {
          tasks := tasks[startOfDay := existingTasks];
        }
        SaveTasks();
      }
    }
  }
}

/**
 * The daily planner screen: schedule slot edits, the done-last task list, the pickle-size
 * cycle, the habit list of the day, and the month calendar used to pick a day. Log and task
 * edits are values handed back to the app; the screen's own editing state is a class.
 */
module Planner {
  import opened Wrappers
  import opened Text
  import opened Calendar
  import opened Types
  import opened Seqs
  import App

  // ---------------------------------------------------------------------------
  // the schedule
  // ---------------------------------------------------------------------------

  /** The two task columns of a schedule slot. */
  datatype Side = TaskLeft | TaskRight

  function SetSide(b: ScheduleBlock, side: Side, value: string): ScheduleBlock {
    match side
    case TaskLeft => b.(taskLeft := Some(value))
    case TaskRight => b.(taskRight := Some(value))
  }

  /** updateSchedule: one column of one slot takes the new text; everything else in the log stays. */
  function UpdateSchedule(log: DailyLog, index: nat, side: Side, value: string): (r: DailyLog)
    requires log.schedule.Some? && index < |log.schedule.value|
    ensures r.(schedule := log.schedule) == log
    ensures r.schedule.Some? && |r.schedule.value| == |log.schedule.value|
    ensures forall i :: 0 <= i < |log.schedule.value| && i != index ==> r.schedule.value[i] == log.schedule.value[i]
    ensures var before, after := log.schedule.value[index], r.schedule.value[index];
      after.time == before.time
      && (side == TaskLeft ==> after.taskLeft == Some(value) && after.taskRight == before.taskRight)
      && (side == TaskRight ==> after.taskRight == Some(value) && after.taskLeft == before.taskLeft)
  {
    var s := log.schedule.value;
    log.(schedule := Some(s[index := SetSide(s[index], side, value)]))
  }

  /** Typing into the same column twice keeps the second text; edits of different columns or slots commute. */
  lemma ScheduleEdits(log: DailyLog, i: nat, si: Side, u: string, j: nat, sj: Side, v: string)
    requires log.schedule.Some? && i < |log.schedule.value| && j < |log.schedule.value|
    ensures (i, si) == (j, sj) ==>
      UpdateSchedule(UpdateSchedule(log, i, si, u), j, sj, v) == UpdateSchedule(log, j, sj, v)
    ensures (i, si) != (j, sj) ==>
      UpdateSchedule(UpdateSchedule(log, i, si, u), j, sj, v) == UpdateSchedule(UpdateSchedule(log, j, sj, v), i, si, u)
  {
    if (i, si) != (j, sj) {
      var a := UpdateSchedule(UpdateSchedule(log, i, si, u), j, sj, v);
      var b := UpdateSchedule(UpdateSchedule(log, j, sj, v), i, si, u);
      assert a.schedule.value == b.schedule.value by {
        var s := log.schedule.value;
        if i == j {
          assert SetSide(SetSide(s[i], si, u), sj, v) == SetSide(SetSide(s[i], sj, v), si, u);
        }
        assert forall k :: 0 <= k < |s| ==> a.schedule.value[k] == b.schedule.value[k];
      }
    } else {
      var a := UpdateSchedule(UpdateSchedule(log, i, si, u), j, sj, v);
      var c := UpdateSchedule(log, j, sj, v);
      assert a.schedule.value == c.schedule.value by {
        var s := log.schedule.value;
        assert SetSide(SetSide(s[i], si, u), sj, v) == SetSide(s[i], sj, v);
        assert forall k :: 0 <= k < |s| ==> a.schedule.value[k] == c.schedule.value[k];
      }
    }
  }

  // ---------------------------------------------------------------------------
  // the task list
  // ---------------------------------------------------------------------------

  /** Every DONE task comes after every task that is not. */
  predicate DoneLast(s: seq<Task>) {
    forall i, j :: 0 <= i < j < |s| && App.IsDoneTask(s[i]) ==> App.IsDoneTask(s[j])
  }

  /**
   * sortedTasks: a stable sort by the done-last comparator, which is the open tasks in their
   * order followed by the DONE tasks in theirs.
   */
  function SortedTasks(tasks: seq<Task>): (r: seq<Task>)
    ensures |r| == |tasks|
    ensures multiset(r) == multiset(tasks)
  {
    FilterPartition(tasks, App.IsDoneTask);
    Filter(tasks, App.IsDoneTask, false) + Filter(tasks, App.IsDoneTask, true)
  }

  /** Every task the open part keeps is open, and every task the done part keeps is DONE. */
  lemma PartsAreGroups(tasks: seq<Task>)
    ensures forall i :: 0 <= i < |Filter(tasks, App.IsDoneTask, false)| ==> !App.IsDoneTask(Filter(tasks, App.IsDoneTask, false)[i])
    ensures forall i :: 0 <= i < |Filter(tasks, App.IsDoneTask, true)| ==> App.IsDoneTask(Filter(tasks, App.IsDoneTask, true)[i])
  {
    var open, done := Filter(tasks, App.IsDoneTask, false), Filter(tasks, App.IsDoneTask, true);
    FilterMembers(tasks, App.IsDoneTask, false);
    FilterMembers(tasks, App.IsDoneTask, true);
    assert forall i :: 0 <= i < |open| ==> open[i] in open;
    assert forall i :: 0 <= i < |done| ==> done[i] in done;
  }

  /** The ordering puts every DONE task after every open one. */
  lemma SortedTasksOrder(tasks: seq<Task>)
    ensures DoneLast(SortedTasks(tasks))
  {
    PartsAreGroups(tasks);
  }

  /** The ordering keeps the relative order of the open tasks and of the DONE tasks. */
  lemma SortedTasksStable(tasks: seq<Task>)
    ensures Filter(SortedTasks(tasks), App.IsDoneTask, false) == Filter(tasks, App.IsDoneTask, false)
    ensures Filter(SortedTasks(tasks), App.IsDoneTask, true) == Filter(tasks, App.IsDoneTask, true)
  {
    var open, done := Filter(tasks, App.IsDoneTask, false), Filter(tasks, App.IsDoneTask, true);
    PartsAreGroups(tasks);
    FilterConcat(open, done, App.IsDoneTask, false);
    FilterConcat(open, done, App.IsDoneTask, true);
    FilterAllPass(open, App.IsDoneTask, false);
    FilterAllPass(done, App.IsDoneTask, true);
    FilterNonePass(open, App.IsDoneTask, true);
    FilterNonePass(done, App.IsDoneTask, false);
  }

  /** A done-last list is its open tasks followed by its DONE tasks. */
  lemma {:induction false} DoneLastSplit(s: seq<Task>)
    requires DoneLast(s)
    ensures s == Filter(s, App.IsDoneTask, false) + Filter(s, App.IsDoneTask, true)
  {
    if s != [] {
      var init, last := s[..|s| - 1], s[|s| - 1];
      assert s == init + [last];
      if App.IsDoneTask(last) {
        DoneLastSplit(init);
      } else {
        assert forall i :: 0 <= i < |s| ==> !App.IsDoneTask(s[i]);
        FilterAllPass(s, App.IsDoneTask, false);
        FilterNonePass(s, App.IsDoneTask, true);
      }
    }
  }

  /** Any done-last arrangement with the same order within each group is the sorted list: the stable sort has one result. */
  lemma SortedTasksUnique(tasks: seq<Task>, r: seq<Task>)
    requires DoneLast(r)
    requires Filter(r, App.IsDoneTask, false) == Filter(tasks, App.IsDoneTask, false)
    requires Filter(r, App.IsDoneTask, true) == Filter(tasks, App.IsDoneTask, true)
    ensures r == SortedTasks(tasks)
  {
    DoneLastSplit(r);
  }

  /** The done count never exceeds the total, and sorting changes neither. */
  lemma DoneWithinTotal(tasks: seq<Task>)
    ensures App.DoneCount(tasks) <= |tasks|
    ensures App.DoneCount(SortedTasks(tasks)) == App.DoneCount(tasks) && |SortedTasks(tasks)| == |tasks|
  {
    SortedTasksStable(tasks);
  }

  // ---------------------------------------------------------------------------
  // the size cycle
  // ---------------------------------------------------------------------------

  /** The size button: SAND, then PEBBLE, then ROCK, then SAND again. */
  function CycleSize(s: PickleSize): (r: PickleSize)
    ensures r != s
  {
    if s == SAND then PEBBLE else if s == PEBBLE then ROCK else SAND
  }

  /** Three presses bring every size back. */
  lemma CycleThrice(s: PickleSize)
    ensures CycleSize(CycleSize(CycleSize(s))) == s
    ensures CycleSize(s) != s && CycleSize(CycleSize(s)) != s
  {
  }

  /** cycleTaskSize: the tasks with that task's id become that task with the next size. */
  function CycleTaskSize(tasks: seq<Task>, task: Task): (r: seq<Task>)
    ensures |r| == |tasks|
    ensures forall k :: 0 <= k < |tasks| ==>
      if tasks[k].id == task.id then r[k].pickleSize == CycleSize(task.pickleSize) && r[k].(pickleSize := task.pickleSize) == task
      else r[k] == tasks[k]
  {
    App.UpdateTask(tasks, task.(pickleSize := CycleSize(task.pickleSize)))
  }

  // ---------------------------------------------------------------------------
  // habits
  // ---------------------------------------------------------------------------

  /** `log.habits || []`. */
  function Habits(log: DailyLog): seq<DailyHabit> {
    log.habits.GetOr([])
  }

  /** handleAddHabit: the trimmed name, when not blank, is appended as an unchecked habit. */
  function AddHabit(log: DailyLog, id: Id, input: string): (r: DailyLog)
    ensures r.(habits := log.habits) == log
    ensures Trim(input) == "" ==> r == log
    ensures Trim(input) != "" ==> r.habits == Some(Habits(log) + [DailyHabit(id, Trim(input), false)])
  {
    var name := Trim(input);
    if name == "" then log else log.(habits := Some(Habits(log) + [DailyHabit(id, name, false)]))
  }

  function HabitHasId(id: Id): DailyHabit -> bool {
    (h: DailyHabit) => h.id == id
  }

  /** handleDeleteHabit: keeps the habits with another id, in order. */
  function DeleteHabit(log: DailyLog, id: Id): (r: DailyLog)
    ensures r.(habits := log.habits) == log
    ensures r.habits.Some? && |r.habits.value| <= |Habits(log)|
  {
    log.(habits := Some(Filter(Habits(log), HabitHasId(id), false)))
  }

  /** Deleting removes exactly the habits with that id. */
  lemma DeleteHabitMembers(log: DailyLog, id: Id)
    ensures forall h :: h in Habits(DeleteHabit(log, id)) <==> h in Habits(log) && h.id != id
  {
    FilterMembers(Habits(log), HabitHasId(id), false);
  }

  /** Deleting a habit just added, under a fresh id, restores the list. */
  lemma AddThenDeleteHabit(log: DailyLog, id: Id, input: string)
    requires Trim(input) != ""
    requires forall i :: 0 <= i < |Habits(log)| ==> Habits(log)[i].id != id
    ensures DeleteHabit(AddHabit(log, id, input), id) == log.(habits := Some(Habits(log)))
  {
    var h := DailyHabit(id, Trim(input), false);
    assert Habits(AddHabit(log, id, input)) == Habits(log) + [h];
    FilterConcat(Habits(log), [h], HabitHasId(id), false);
    FilterAllPass(Habits(log), HabitHasId(id), false);
    assert [h][..0] == [];
    assert Filter([h], HabitHasId(id), false) == [];
    assert Filter(Habits(log) + [h], HabitHasId(id), false) == Habits(log);
  }

  /** saveEditingHabit: when a habit is being edited, the habits with its id take the edited name, untrimmed. */
  function RenameHabit(log: DailyLog, editingId: Option<Id>, name: string): (r: DailyLog)
    ensures r.(habits := log.habits) == log
    ensures editingId.None? || editingId.value == "" ==> r == log
    ensures editingId.Some? && editingId.value != "" ==>
      r.habits.Some? && |r.habits.value| == |Habits(log)| &&
      forall i :: 0 <= i < |Habits(log)| ==>
        var h := Habits(log)[i];
        r.habits.value[i] == if h.id == editingId.value then h.(name := name) else h
  {
    if editingId.None? || editingId.value == "" then log
    else
      var hs := Habits(log);
      log.(habits := Some(seq(|hs|, i requires 0 <= i < |hs| =>
        if hs[i].id == editingId.value then hs[i].(name := name) else hs[i])))
  }

  /** The habit checkbox: flips the habits with that id; a log without a habit list keeps none. */
  function ToggleHabit(log: DailyLog, id: Id): (r: DailyLog)
    ensures r.(habits := log.habits) == log
    ensures log.habits.None? ==> r == log
    ensures log.habits.Some? ==>
      r.habits.Some? && |r.habits.value| == |log.habits.value| &&
      forall i :: 0 <= i < |log.habits.value| ==>
        var h := log.habits.value[i];
        r.habits.value[i].id == h.id && r.habits.value[i].name == h.name
        && r.habits.value[i].completed == (h.completed != (h.id == id))
  {
    if log.habits.None? then log
    else
      var hs := log.habits.value;
      log.(habits := Some(seq(|hs|, i requires 0 <= i < |hs| =>
        if hs[i].id == id then hs[i].(completed := !hs[i].completed) else hs[i])))
  }

  /** Ticking a habit twice restores the log. */
  lemma ToggleHabitTwice(log: DailyLog, id: Id)
    ensures ToggleHabit(ToggleHabit(log, id), id) == log
  {
    if log.habits.Some? {
      var r := ToggleHabit(ToggleHabit(log, id), id);
      assert r.habits.value == log.habits.value;
    }
  }

  /** Renaming and ticking keep every habit's id, so they never lose or add a habit. */
  lemma HabitEditsKeepIds(log: DailyLog, editingId: Option<Id>, name: string, id: Id)
    requires log.habits.Some?
    ensures var renamed := Habits(RenameHabit(log, editingId, name));
      |renamed| == |Habits(log)| &&
      forall i :: 0 <= i < |renamed| ==>
        renamed[i].id == Habits(log)[i].id && renamed[i].completed == Habits(log)[i].completed
    ensures var ticked := Habits(ToggleHabit(log, id));
      |ticked| == |Habits(log)| && forall i :: 0 <= i < |ticked| ==> ticked[i].id == Habits(log)[i].id
  {
  }

  // ---------------------------------------------------------------------------
  // the month calendar
  // ---------------------------------------------------------------------------

  /** getFirstDayOfMonth: the weekday, counted from Monday, of the 0-based month's first day. */
  function FirstDayOfMonth(year: int, month: int): (r: int)
    ensures 0 <= r <= 6
    ensures r == Weekday(MakeDay(year, month, 1))
  {
    var first := MakeDay(year, month, 1);
    var day := JsDay(first);
    MondayBased(first);
    if day == 0 then 6 else day - 1
  }

  /** Sunday-first getDay, with Sunday moved to the end, is the Monday-first weekday. */
  lemma MondayBased(n: Day)
    ensures (if JsDay(n) == 0 then 6 else JsDay(n) - 1) == Weekday(n)
  {
    var q := (n + 3) / 7;
    assert n + 3 == 7 * q + Weekday(n);
    if Weekday(n) == 6 {
      assert n + 4 == 7 * (q + 1);
    } else {
      assert n + 4 == 7 * q + Weekday(n) + 1;
    }
  }

  /** A cell of the calendar grid. */
  datatype Cell = Blank | DayCell(day: int)

  /** Day `d` of the month sits in the grid column of its weekday. */
  lemma GridColumnIsWeekday(year: int, month: int, d: int)
    ensures (FirstDayOfMonth(year, month) + d - 1) % 7 == Weekday(MakeDay(year, month, d))
  {
    var first := MakeDay(year, month, 1);
    assert MakeDay(year, month, d) == first + d - 1;
    WeekdayShift(first, d - 1);
  }

  /**
   * The calendar of the 0-based month: a blank for each weekday before the 1st (counted from
   * Monday), then a cell for each day of the month, in order.
   */
  predicate IsMonthGrid(days: seq<Cell>, year: int, month: int) {
    var start := FirstDayOfMonth(year, month);
    0 <= month <= 11
    && |days| == start + DaysInMonth(year, month + 1)
    && (forall i :: 0 <= i < start ==> days[i] == Blank)
    && (forall i :: start <= i < |days| ==> days[i] == DayCell(i - start + 1))
  }

  /** In the month's grid, every day cell sits in the column of its weekday. */
  lemma GridColumnsAreWeekdays(days: seq<Cell>, year: int, month: int)
    requires IsMonthGrid(days, year, month)
    ensures forall i :: 0 <= i < |days| && days[i].DayCell? ==> i % 7 == Weekday(MakeDay(year, month, days[i].day))
  {
    var start := FirstDayOfMonth(year, month);
    forall i | 0 <= i < |days| && days[i].DayCell?
      ensures i % 7 == Weekday(MakeDay(year, month, days[i].day))
    {
      assert start <= i && days[i].day == i - start + 1;
      GridColumnIsWeekday(year, month, i - start + 1);
    }
  }

  lemma WeekdayShift(n: Day, k: int)
    ensures (Weekday(n) + k) % 7 == Weekday(n + k)
  {
    var q := (n + 3) / 7;
    assert n + 3 == 7 * q + Weekday(n);
    assert n + k + 3 == 7 * q + (Weekday(n) + k);
  }

  /** The calendar's cells: `blanks` empty cells, then the days 1 to `count`. */
  method FillGrid(blanks: nat, count: nat) returns (days: seq<Cell>)
    ensures |days| == blanks + count
    ensures forall i :: 0 <= i < blanks ==> days[i] == Blank
    ensures forall i :: blanks <= i < |days| ==> days[i] == DayCell(i - blanks + 1)
  {
    days := [];
    var i := 0;
    while i < blanks
      invariant 0 <= i <= blanks && |days| == i
      invariant forall k :: 0 <= k < i ==> days[k] == Blank
    {
      days := days + [Blank];
      i := i + 1;
    }
    i := 1;
    while i <= count
      invariant 1 <= i <= count + 1 && |days| == blanks + i - 1
      invariant forall k :: 0 <= k < blanks ==> days[k] == Blank
      invariant forall k :: blanks <= k < |days| ==> days[k] == DayCell(k - blanks + 1)
    {
      days := days + [DayCell(i)];
      i := i + 1;
    }
  }

  // ---------------------------------------------------------------------------
  // the planner's editing state
  // ---------------------------------------------------------------------------

  /** What the planner screen holds between events: the habit and task being edited, and the calendar's month. */
  class PlannerScreen {
    var editingHabitId: Option<Id>
    var editingHabitName: string
    var editingTask: Option<Task>
    var viewDate: Day

    constructor(logDate: Day)
      ensures editingHabitId.None? && editingHabitName == "" && editingTask.None? && viewDate == logDate
    {
      editingHabitId := None;
      editingHabitName := "";
      editingTask := None;
      viewDate := logDate;
    }

    /** startEditingHabit. */
    method StartEditingHabit(id: Id, name: string)
      modifies this
      ensures editingHabitId == Some(id) && editingHabitName == name
      ensures editingTask == old(editingTask) && viewDate == old(viewDate)
    {
      editingHabitId := Some(id);
      editingHabitName := name;
    }

    /** saveEditingHabit: renames the habit being edited and ends the edit; with none, nothing happens. */
    method SaveEditingHabit(log: DailyLog) returns (r: DailyLog)
      modifies this
      ensures r == RenameHabit(log, old(editingHabitId), old(editingHabitName))
      ensures old(editingHabitId).None? || old(editingHabitId).value == "" ==> unchanged(this)
      ensures old(editingHabitId).Some? && old(editingHabitId).value != "" ==>
        editingHabitId.None? && editingHabitName == "" && editingTask == old(editingTask) && viewDate == old(viewDate)
    {
      r := RenameHabit(log, editingHabitId, editingHabitName);
      if editingHabitId.Some? && editingHabitId.value != "" {
        editingHabitId := None;
        editingHabitName := "";
      }
    }

    /** Opening a task in the editor. */
    method EditTask(task: Task)
      modifies this
      ensures editingTask == Some(task)
      ensures editingHabitId == old(editingHabitId) && editingHabitName == old(editingHabitName) && viewDate == old(viewDate)
    {
      editingTask := Some(task);
    }

    /** The urgent checkbox: sets urgency and keeps importance. */
    method SetUrgent(checked: bool)
      requires editingTask.Some?
      modifies this
      ensures editingTask.Some? && editingTask.value == old(editingTask.value).(quadrant := editingTask.value.quadrant)
      ensures IsUrgent(editingTask.value.quadrant) == checked
      ensures IsImportant(editingTask.value.quadrant) == IsImportant(old(editingTask.value.quadrant))
      ensures editingHabitId == old(editingHabitId) && editingHabitName == old(editingHabitName) && viewDate == old(viewDate)
    {
      var t := editingTask.value;
      QuadrantCheckboxes(t.quadrant, checked, IsImportant(t.quadrant));
      editingTask := Some(t.(quadrant := QuadrantOf(checked, IsImportant(t.quadrant))));
    }

    /** The important checkbox: sets importance and keeps urgency. */
    method SetImportant(checked: bool)
      requires editingTask.Some?
      modifies this
      ensures editingTask.Some? && editingTask.value == old(editingTask.value).(quadrant := editingTask.value.quadrant)
      ensures IsImportant(editingTask.value.quadrant) == checked
      ensures IsUrgent(editingTask.value.quadrant) == IsUrgent(old(editingTask.value.quadrant))
      ensures editingHabitId == old(editingHabitId) && editingHabitName == old(editingHabitName) && viewDate == old(viewDate)
    {
      var t := editingTask.value;
      QuadrantCheckboxes(t.quadrant, IsUrgent(t.quadrant), checked);
      editingTask := Some(t.(quadrant := QuadrantOf(IsUrgent(t.quadrant), checked)));
    }

    /** handleSaveTask: the edited task replaces the tasks with its id and the editor closes. */
    method SaveTask(tasks: seq<Task>) returns (r: seq<Task>)
      modifies this
      ensures old(editingTask).None? ==> r == tasks && unchanged(this)
      ensures old(editingTask).Some? ==> r == App.UpdateTask(tasks, old(editingTask).value) && editingTask.None?
      ensures editingHabitId == old(editingHabitId) && editingHabitName == old(editingHabitName) && viewDate == old(viewDate)
    {
      if editingTask.Some? {
        r := App.UpdateTask(tasks, editingTask.value);
        editingTask := None;
      } else {
        r := tasks;
      }
    }

    /** handleDeleteClick: deletes the tasks with that id and closes the editor if it shows one of them. */
    method DeleteClick(tasks: seq<Task>, id: Id) returns (r: seq<Task>)
      modifies this
      ensures r == App.DeleteTask(tasks, id)
      ensures editingTask == (if old(editingTask).Some? && old(editingTask).value.id == id then None else old(editingTask))
      ensures editingTask.Some? ==> editingTask.value.id != id
      ensures editingHabitId == old(editingHabitId) && editingHabitName == old(editingHabitName) && viewDate == old(viewDate)
    {
      r := App.DeleteTask(tasks, id);
      if editingTask.Some? && editingTask.value.id == id {
        editingTask := None;
      }
    }

    /** The calendar follows the log's date when that changes. */
    method SyncViewDate(logDate: Day)
      modifies this
      ensures viewDate == logDate
      ensures editingHabitId == old(editingHabitId) && editingHabitName == old(editingHabitName) && editingTask == old(editingTask)
    {
      viewDate := logDate;
    }

    /** changeMonth: the calendar shows the first day of the month `offset` months away. */
    method ChangeMonth(offset: int)
      modifies this
      ensures viewDate == MonthAfter(old(viewDate), offset)
      ensures editingHabitId == old(editingHabitId) && editingHabitName == old(editingHabitName) && editingTask == old(editingTask)
    {
      viewDate := MonthAfter(viewDate, offset);
    }

    /**
     * renderCalendar: one blank per weekday before the 1st, then the days of the month in order
     * (GridColumnsAreWeekdays: so that each day falls in the column of its weekday).
     */
    method RenderCalendar() returns (days: seq<Cell>)
      ensures var d := CivilFromDays(viewDate); IsMonthGrid(days, d.year, d.month - 1)
    {
      var date := CivilFromDays(viewDate);
      var year, month := date.year, date.month - 1;
      var daysInMonth := DaysInMonthJs(year, month);
      assert 0 <= month <= 11;
      assert daysInMonth == DaysInMonth(year, month + 1) by {
        DaysInMonthJsIsMonthLength(year, month);
      }
      var startDay := FirstDayOfMonth(year, month);
      days := FillGrid(startDay, daysInMonth);
    }
  }

  /** Months counted from January of year 0. */
  function MonthNumber(d: Date): int {
    d.year * 12 + d.month - 1
  }

  /** `new Date(y, m + offset, 1)` for the year `y` and 0-based month `m` of day `n`. */
  function MonthAfter(n: Day, offset: int): Day {
    var d := CivilFromDays(n);
    MakeDay(d.year, d.month - 1 + offset, 1)
  }

  /** `new Date(year, month, 1)` for any 0-based month, however far out of 0..11, is the 1st of the month it carries to. */
  lemma FirstOfMonth(year: int, month: int)
    ensures CivilFromDays(MakeDay(year, month, 1)).day == 1
    ensures MonthNumber(CivilFromDays(MakeDay(year, month, 1))) == year * 12 + month
  {
    var date := Date(year + month / 12, month % 12 + 1, 1);
    CivilRoundTrip(date);
    assert MakeDay(year, month, 1) == DaysFromCivil(date);
  }
}

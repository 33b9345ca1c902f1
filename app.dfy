/**
 * The app shell: the default daily log, the log history with the current log, and the task
 * handlers it passes to the planner. Task handlers are the pure list transforms the source hands
 * to `setTasks`; the log history and current log are a class whose methods update both.
 */
module App {
  import opened Wrappers
  import opened Text
  import opened Calendar
  import opened Types
  import opened Seqs
  import Learning

  // ---------------------------------------------------------------------------
  // the default log
  // ---------------------------------------------------------------------------

  const ScheduleSlots: nat := 18
  const FirstHour: nat := 5

  /** `${5 + i < 10 ? '0' : ''}${5 + i}:00`. */
  function SlotTime(i: nat): string {
    Pad2(FirstHour + i) + ":00"
  }

  function DefaultSchedule(): seq<ScheduleBlock> {
    seq(ScheduleSlots, i requires 0 <= i < ScheduleSlots => ScheduleBlock(SlotTime(i), Some(""), Some("")))
  }

  function DefaultHabits(): seq<DailyHabit> {
    [ DailyHabit("h1", "Tập thể dục 30p", false),
      DailyHabit("h2", "Đọc sách 20 trang", false),
      DailyHabit("h3", "Ngủ trước 23h", false) ]
  }

  /** DEFAULT_LOG for a given day: empty journal, no mood, zero finance, default schedule and habits. */
  function DefaultLog(date: Day): (r: DailyLog)
    ensures r.date == date
    ensures r.mood.None? && r.finance.income == 0 && r.finance.expense == 0
    ensures r.schedule.Some? && |r.schedule.value| == ScheduleSlots
    ensures r.habits.Some? && |r.habits.value| == 3
    ensures forall h :: h in r.habits.value ==> !h.completed
  {
    DailyLog(date, "", "", "", None, "", DailyFinance(0, 0), "", Some(DefaultSchedule()),
             None, None, None, None, Some(DefaultHabits()))
  }

  /** Below 100, the padding idiom gives exactly two digits. */
  lemma Pad2IsTwoDigits(n: nat)
    requires n < 100
    ensures Pad2(n) == FixedDigits(n, 2)
  {
    assert DigitChar(0) == '0';
    if n >= 10 {
      assert Decimal(n) == Decimal(n / 10) + [DigitChar(n % 10)];
    }
  }

  /**
   * The default schedule has 18 slots from `05:00` to `22:00`, each hour written with two digits,
   * in chronological order also as strings, with empty left and right entries.
   */
  lemma DefaultScheduleSlots()
    ensures |DefaultSchedule()| == 18
    ensures forall i :: 0 <= i < 18 ==>
      |DefaultSchedule()[i].time| == 5 && DefaultSchedule()[i].time[2..] == ":00"
      && IsDigits(DefaultSchedule()[i].time[..2]) && ParseDigits(DefaultSchedule()[i].time[..2]) == 5 + i
    ensures forall i, j :: 0 <= i < j < 18 ==> LexLess(DefaultSchedule()[i].time, DefaultSchedule()[j].time)
    ensures forall i :: 0 <= i < 18 ==>
      DefaultSchedule()[i].taskLeft == Some("") && DefaultSchedule()[i].taskRight == Some("")
  {
    forall i | 0 <= i < 18
      ensures |SlotTime(i)| == 5 && SlotTime(i)[2..] == ":00"
      ensures IsDigits(SlotTime(i)[..2]) && ParseDigits(SlotTime(i)[..2]) == 5 + i
    {
      SlotTimeShape(i);
    }
    forall i, j | 0 <= i < j < 18
      ensures LexLess(SlotTime(i), SlotTime(j))
    {
      SlotTimeOrder(i, j);
    }
  }

  /** One slot's time: two hour digits reading `5 + i`, then `:00`. */
  lemma SlotTimeShape(i: nat)
    requires i < 18
    ensures |SlotTime(i)| == 5 && SlotTime(i)[2..] == ":00"
    ensures IsDigits(SlotTime(i)[..2]) && ParseDigits(SlotTime(i)[..2]) == 5 + i
  {
    assert Pow10(2) == 100;
    Pad2IsTwoDigits(5 + i);
    assert SlotTime(i)[..2] == FixedDigits(5 + i, 2);
    FixedDigitsRoundTrip(5 + i, 2);
  }

  /** Earlier slots have smaller time strings. */
  lemma SlotTimeOrder(i: nat, j: nat)
    requires i < j < 18
    ensures LexLess(SlotTime(i), SlotTime(j))
  {
    assert Pow10(2) == 100;
    Pad2IsTwoDigits(5 + i);
    Pad2IsTwoDigits(5 + j);
    LexLessConcat(Pad2(5 + i), ":00", Pad2(5 + j), ":00");
    FixedDigitsOrder(5 + i, 5 + j, 2);
  }

  /** The first and last default slots. */
  lemma DefaultScheduleEnds()
    ensures DefaultSchedule()[0].time == "05:00" && DefaultSchedule()[17].time == "22:00"
  {
    assert Decimal(5) == "5";
    assert Decimal(22) == Decimal(2) + "2";
  }

  /** handleDateChange on a stored log: DEFAULT_LOG's fields under the stored ones, with schedule and habits defaulted. */
  function WithDefaults(stored: DailyLog): (r: DailyLog)
    ensures r.schedule.Some? && r.habits.Some?
    ensures r.date == stored.date
    ensures stored.schedule.Some? && stored.habits.Some? ==> r == stored
  {
    stored.(schedule := Some(stored.schedule.GetOr(DefaultSchedule())),
            habits := Some(stored.habits.GetOr(DefaultHabits())))
  }

  /** Every log of the history is stored under its own date. */
  predicate FiledUnderOwnDate(history: map<Day, DailyLog>) {
    forall d :: d in history ==> history[d].date == d
  }

  /** The log history and the log on screen. */
  class AppState {
    var logHistory: map<Day, DailyLog>
    var currentLog: DailyLog

    /** Logs are filed under their dates and the log on screen has an entry in the history. */
    predicate Valid()
      reads this
    {
      FiledUnderOwnDate(logHistory) && currentLog.date in logHistory
    }

    /** A first start with nothing saved: the history holds today's default log, which is on screen. */
    constructor(today: Day)
      ensures Valid()
      ensures logHistory == map[today := DefaultLog(today)] && currentLog == DefaultLog(today)
    {
      logHistory := map[today := DefaultLog(today)];
      currentLog := DefaultLog(today);
    }

    /** updateCurrentLog: shows the log and stores it under its own date; other dates keep their logs. */
    method UpdateCurrentLog(newLog: DailyLog)
      requires Valid()
      modifies this
      ensures Valid()
      ensures currentLog == newLog && logHistory == old(logHistory)[newLog.date := newLog]
      ensures forall d :: d in old(logHistory) && d != newLog.date ==> d in logHistory && logHistory[d] == old(logHistory)[d]
    {
      currentLog := newLog;
      logHistory := logHistory[newLog.date := newLog];
    }

    /**
     * handleDateChange: shows the stored log of that date, completed with the default schedule
     * and habits, or files and shows a fresh default log for it.
     */
    method DateChange(date: Day)
      requires Valid()
      modifies this
      ensures Valid()
      ensures currentLog.date == date && currentLog.schedule.Some? && currentLog.habits.Some?
      ensures date in old(logHistory) ==>
        logHistory == old(logHistory) && currentLog == WithDefaults(old(logHistory)[date])
      ensures date !in old(logHistory) ==>
        logHistory == old(logHistory)[date := DefaultLog(date)] && currentLog == DefaultLog(date)
    {
      if date in logHistory {
        currentLog := WithDefaults(logHistory[date]);
      } else {
        var newLog := DefaultLog(date);
        currentLog := newLog;
        logHistory := logHistory[date := newLog];
      }
    }

    /**
     * handleCopyYesterdaySchedule: when the day before has a stored schedule, the current log
     * takes a copy of it (and is stored); otherwise nothing changes.
     */
    method CopyYesterdaySchedule() returns (copied: bool)
      requires Valid()
      modifies this
      ensures Valid()
      ensures copied == (old(currentLog).date - 1 in old(logHistory)
                         && old(logHistory)[old(currentLog).date - 1].schedule.Some?)
      ensures copied ==>
        currentLog == old(currentLog).(schedule := old(logHistory)[old(currentLog).date - 1].schedule)
        && logHistory == old(logHistory)[currentLog.date := currentLog]
      ensures !copied ==> currentLog == old(currentLog) && logHistory == old(logHistory)
    {
      var prevKey := currentLog.date - 1;
      if prevKey in logHistory && logHistory[prevKey].schedule.Some? {
        UpdateCurrentLog(currentLog.(schedule := logHistory[prevKey].schedule));
        copied := true;
      } else {
        copied := false;
      }
    }
  }

  // ---------------------------------------------------------------------------
  // tasks
  // ---------------------------------------------------------------------------

  /** A task's week key agrees with its day key. */
  predicate WeekMatchesDate(t: Task) {
    t.assignDate.Some? ==> t.assignWeek == Some(IsoWeekKey(t.assignDate.value))
  }

  predicate AllWeeksMatchDates(tasks: seq<Task>) {
    forall k :: 0 <= k < |tasks| ==> WeekMatchesDate(tasks[k])
  }

  /** handlePlannerAddTask: a TODO task in Q2 on the planner's day, tagged with that day's week. */
  function PlannerAddTask(tasks: seq<Task>, id: Id, title: string, size: PickleSize, date: Day): (r: seq<Task>)
    ensures |r| == |tasks| + 1 && r[..|tasks|] == tasks
    ensures var t := r[|tasks|];
      t.id == id && t.title == title && t.status == TODO && t.quadrant == Q2 && t.pickleSize == size
      && t.assignDate == Some(date) && WeekMatchesDate(t)
  {
    tasks + [Task(id, title, TODO, Q2, size, None, None, None, None, None, None, None,
                  Some(date), Some(IsoWeekKey(date)))]
  }

  function IsDoneTask(t: Task): bool {
    t.status == DONE
  }

  /** `tasks.filter(t => t.status === DONE).length`. */
  function DoneCount(tasks: seq<Task>): nat {
    Count(tasks, IsDoneTask)
  }

  /** `t.status === DONE ? TODO : DONE`. */
  function Toggled(s: TaskStatus): (r: TaskStatus)
    ensures r != s || s == DOING
    ensures r == DONE || r == TODO
    ensures s == DONE ==> r == TODO
    ensures s != DONE ==> r == DONE
  {
    if s == DONE then TODO else DONE
  }

  /** handleToggleTask: only the status of the tasks with that id changes. */
  function ToggleTask(tasks: seq<Task>, id: Id): (r: seq<Task>)
    ensures |r| == |tasks|
    ensures forall k :: 0 <= k < |tasks| ==>
      r[k] == (if tasks[k].id == id then tasks[k].(status := Toggled(tasks[k].status)) else tasks[k])
  {
    seq(|tasks|, k requires 0 <= k < |tasks| =>
      if tasks[k].id == id then tasks[k].(status := Toggled(tasks[k].status)) else tasks[k])
  }

  /** Toggling twice restores every task that was TODO or DONE, and leaves a DOING task TODO. */
  lemma ToggleTwice(tasks: seq<Task>, id: Id)
    ensures |ToggleTask(ToggleTask(tasks, id), id)| == |tasks|
    ensures forall k :: 0 <= k < |tasks| ==>
      ToggleTask(ToggleTask(tasks, id), id)[k]
        == (if tasks[k].id == id && tasks[k].status == DOING then tasks[k].(status := TODO) else tasks[k])
  {
  }

  /** handleUpdateTask: the tasks with the updated task's id are replaced by it. */
  function UpdateTask(tasks: seq<Task>, updated: Task): (r: seq<Task>)
    ensures |r| == |tasks|
    ensures forall k :: 0 <= k < |tasks| ==> r[k] == (if tasks[k].id == updated.id then updated else tasks[k])
  {
    seq(|tasks|, k requires 0 <= k < |tasks| => if tasks[k].id == updated.id then updated else tasks[k])
  }

  /** Updating with the same task twice is updating once. */
  lemma UpdateIdempotent(tasks: seq<Task>, updated: Task)
    ensures UpdateTask(UpdateTask(tasks, updated), updated) == UpdateTask(tasks, updated)
  {
  }

  function HasId(id: Id): Task -> bool {
    (t: Task) => t.id == id
  }

  /** handleDeleteTask: keeps the tasks with another id, in order. */
  function DeleteTask(tasks: seq<Task>, id: Id): (r: seq<Task>)
    ensures forall t :: t in r <==> t in tasks && t.id != id
    ensures |r| + Count(tasks, HasId(id)) == |tasks|
  {
    FilterMembers(tasks, HasId(id), false);
    FilterPartition(tasks, HasId(id));
    Filter(tasks, HasId(id), false)
  }

  /** `tasks.find(t => t.id === id)`: the first task with that id. */
  function FindTask(tasks: seq<Task>, id: Id): (r: Option<Task>)
    ensures r.Some? ==> r.value.id == id
    ensures r.Some? ==> exists k :: 0 <= k < |tasks| && tasks[k] == r.value && forall j :: 0 <= j < k ==> tasks[j].id != id
    ensures r.None? ==> forall k :: 0 <= k < |tasks| ==> tasks[k].id != id
  {
    var i := FindIndex(tasks, HasId(id));
    if i < 0 then None else Some(tasks[i])
  }

  /**
   * handleMoveTaskToNextDay: when the first task with that id has a day, every task with that id
   * moves to the day after it, with the week key of that day.
   */
  function MoveTaskToNextDay(tasks: seq<Task>, id: Id): (r: seq<Task>)
    ensures |r| == |tasks|
    ensures FindTask(tasks, id).None? || FindTask(tasks, id).value.assignDate.None? ==> r == tasks
    ensures forall k :: 0 <= k < |tasks| && tasks[k].id != id ==> r[k] == tasks[k]
    ensures var found := FindTask(tasks, id);
      found.Some? && found.value.assignDate.Some? ==>
      forall k :: 0 <= k < |tasks| && tasks[k].id == id ==>
        r[k] == ScheduledOn(tasks[k], found.value.assignDate.value + 1)
  {
    var found := FindTask(tasks, id);
    if found.None? || found.value.assignDate.None? then tasks
    else AssignDay(tasks, id, found.value.assignDate.value + 1)
  }

  /** The task placed on `day`, its week key following the day; nothing else about it changes. */
  function ScheduledOn(t: Task, day: Day): (r: Task)
    ensures r.assignDate == Some(day) && r.assignWeek == Some(IsoWeekKey(day))
    ensures r.(assignDate := t.assignDate, assignWeek := t.assignWeek) == t
  {
    t.(assignDate := Some(day), assignWeek := Some(IsoWeekKey(day)))
  }

  /** Every task with the id moved to the day `next`, its week key following; the others untouched. */
  function AssignDay(tasks: seq<Task>, id: Id, next: Day): (r: seq<Task>)
    ensures |r| == |tasks|
    ensures forall k :: 0 <= k < |tasks| && tasks[k].id != id ==> r[k] == tasks[k]
    ensures forall k :: 0 <= k < |tasks| && tasks[k].id == id ==>
      r[k] == ScheduledOn(tasks[k], next)
  {
    seq(|tasks|, k requires 0 <= k < |tasks| =>
      if tasks[k].id == id then ScheduledOn(tasks[k], next)
      else tasks[k])
  }

  /** Adding, toggling, deleting and moving keep every task's week key in step with its day. */
  lemma WeeksStayInStep(tasks: seq<Task>, id: Id, title: string, size: PickleSize, date: Day)
    requires AllWeeksMatchDates(tasks)
    ensures AllWeeksMatchDates(PlannerAddTask(tasks, id, title, size, date))
    ensures AllWeeksMatchDates(ToggleTask(tasks, id))
    ensures AllWeeksMatchDates(MoveTaskToNextDay(tasks, id))
    ensures AllWeeksMatchDates(DeleteTask(tasks, id))
  {
    AddKeepsWeeksInStep(tasks, id, title, size, date);
    assert AllWeeksMatchDates(ToggleTask(tasks, id));
    MoveKeepsWeeksInStep(tasks, id);
    DeleteKeepsWeeksInStep(tasks, id);
  }

  lemma AddKeepsWeeksInStep(tasks: seq<Task>, id: Id, title: string, size: PickleSize, date: Day)
    requires AllWeeksMatchDates(tasks)
    ensures AllWeeksMatchDates(PlannerAddTask(tasks, id, title, size, date))
  {
    var r := PlannerAddTask(tasks, id, title, size, date);
    forall k | 0 <= k < |r|
      ensures WeekMatchesDate(r[k])
    {
      if k < |tasks| {
        assert r[k] == tasks[k];
      }
    }
  }

  lemma MoveKeepsWeeksInStep(tasks: seq<Task>, id: Id)
    requires AllWeeksMatchDates(tasks)
    ensures AllWeeksMatchDates(MoveTaskToNextDay(tasks, id))
  {
    var r := MoveTaskToNextDay(tasks, id);
    forall k | 0 <= k < |r|
      ensures WeekMatchesDate(r[k])
    {
      assert WeekMatchesDate(tasks[k]);
    }
  }

  lemma DeleteKeepsWeeksInStep(tasks: seq<Task>, id: Id)
    requires AllWeeksMatchDates(tasks)
    ensures AllWeeksMatchDates(DeleteTask(tasks, id))
  {
    var d := DeleteTask(tasks, id);
    FilterMembers(tasks, HasId(id), false);
    forall k | 0 <= k < |d|
      ensures WeekMatchesDate(d[k])
    {
      assert d[k] in tasks;
    }
  }

  /** An update keeps the weeks in step when the updated task itself is. */
  lemma UpdateKeepsWeeksInStep(tasks: seq<Task>, updated: Task)
    requires AllWeeksMatchDates(tasks) && WeekMatchesDate(updated)
    ensures AllWeeksMatchDates(UpdateTask(tasks, updated))
  {
  }

  function OnDay(date: Day): Task -> bool {
    (t: Task) => t.assignDate == Some(date)
  }

  /** dailyTasks: the tasks whose day key is the viewed date, in order. */
  function DailyTasks(tasks: seq<Task>, date: Day): (r: seq<Task>)
    ensures forall t :: t in r <==> t in tasks && t.assignDate == Some(date)
  {
    FilterMembers(tasks, OnDay(date), true);
    Filter(tasks, OnDay(date), true)
  }

  /** A task added from the planner shows up on the planner's day. */
  lemma AddedTaskOnDay(tasks: seq<Task>, id: Id, title: string, size: PickleSize, date: Day)
    ensures PlannerAddTask(tasks, id, title, size, date)[|tasks|] in DailyTasks(PlannerAddTask(tasks, id, title, size, date), date)
  {
    var r := PlannerAddTask(tasks, id, title, size, date);
    FilterMembers(r, OnDay(date), true);
  }

  /** After a move, the moved tasks are listed on the next day and no longer on their old one. */
  lemma MovedTaskChangesDay(tasks: seq<Task>, id: Id, day: Day)
    requires FindTask(tasks, id).Some? && FindTask(tasks, id).value.assignDate == Some(day)
    ensures forall k :: 0 <= k < |tasks| && tasks[k].id == id ==>
      MoveTaskToNextDay(tasks, id)[k] in DailyTasks(MoveTaskToNextDay(tasks, id), day + 1)
      && MoveTaskToNextDay(tasks, id)[k] !in DailyTasks(MoveTaskToNextDay(tasks, id), day)
  {
    var r := MoveTaskToNextDay(tasks, id);
    FilterMembers(r, OnDay(day), true);
    FilterMembers(r, OnDay(day + 1), true);
    var next := FindTask(tasks, id).value.assignDate.value + 1;
    assert next == day + 1;
    forall k | 0 <= k < |tasks| && tasks[k].id == id
      ensures r[k].assignDate == Some(day + 1)
    {
      assert r[k] == ScheduledOn(tasks[k], next);
    }
  }

  function IsDeepWork(t: Task): bool {
    t.status == DONE && t.quadrant == Q2
  }

  /** deepWorkMinutes: sixty minutes for each of the day's tasks that is done and in Q2. */
  function DeepWorkMinutes(tasks: seq<Task>, date: Day): (r: nat)
    ensures r % 60 == 0
    ensures r <= 60 * |DailyTasks(tasks, date)|
  {
    Count(DailyTasks(tasks, date), IsDeepWork) * 60
  }

  /** dueFlashcardsCount: the due counter of the flashcard engine, taken at the viewed log's date. */
  function DueFlashcardsCount(kb: seq<KnowledgeNote>, log: DailyLog): (r: nat)
    ensures r == |Learning.DueCards(kb, log.date)|
    ensures r <= Learning.TotalCards(kb)
  {
    Learning.DueCount(kb, log.date)
  }
}

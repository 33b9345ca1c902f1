/**
 * The tools screen: the 5/25 list of yearly goals with their milestones and month grid, and the
 * weekly Eisenhower board. Goal and task lists are values the screen replaces; the board's own
 * state (the week it shows and the quick-add inputs) is a class.
 */
module Tools {
  import opened Wrappers
  import opened Text
  import opened Calendar
  import opened Types
  import opened Seqs
  import opened Percentages
  import App

  // ---------------------------------------------------------------------------
  // the 5/25 rule
  // ---------------------------------------------------------------------------

  /** The list holds at most 25 goals, and at most 5 of them are the chosen top five. */
  const MaxGoals: nat := 25
  const MaxTop5: nat := 5

  function IsTopGoal(g: YearlyGoal): bool {
    g.isTop5
  }

  function Top5Count(goals: seq<YearlyGoal>): nat {
    Count(goals, IsTopGoal)
  }

  predicate WithinCaps(goals: seq<YearlyGoal>) {
    |goals| <= MaxGoals && Top5Count(goals) <= MaxTop5
  }

  predicate UniqueGoalIds(goals: seq<YearlyGoal>) {
    forall i, j :: 0 <= i < j < |goals| ==> goals[i].id != goals[j].id
  }

  /** handleAddGoal: a new goal outside the top five, with no progress and no milestones, unless the list is full. */
  function AddGoal(goals: seq<YearlyGoal>, id: Id, title: string): (r: seq<YearlyGoal>)
    ensures |goals| >= MaxGoals ==> r == goals
    ensures |goals| < MaxGoals ==>
      |r| == |goals| + 1 && r[..|goals|] == goals
      && r[|goals|].id == id && r[|goals|].title == title && !r[|goals|].isTop5
      && r[|goals|].progress == 0 && r[|goals|].milestones == Some([])
  {
    if |goals| >= MaxGoals then goals
    else goals + [YearlyGoal(id, title, false, 0, None, Some([]))]
  }

  /** The goal input: the trimmed text becomes a goal, and blank text adds nothing. */
  function SubmitGoal(goals: seq<YearlyGoal>, id: Id, input: string): (r: seq<YearlyGoal>)
    ensures Trim(input) == "" ==> r == goals
    ensures Trim(input) != "" && |goals| < MaxGoals ==>
      |r| == |goals| + 1 && r[..|goals|] == goals && r[|goals|].id == id && !r[|goals|].isTop5
    ensures |goals| >= MaxGoals ==> r == goals
    ensures |r| == |goals| + 1 ==> r[|goals|].title == Trim(input) && r[|goals|].title != ""
  {
    var title := Trim(input);
    if title == "" then goals else AddGoal(goals, id, title)
  }

  /** `goals.find(g => g.id === id)`: the first goal with that id. */
  function FindGoal(goals: seq<YearlyGoal>, id: Id): (r: Option<YearlyGoal>)
    ensures r.Some? ==> r.value.id == id
    ensures r.Some? ==> exists k :: 0 <= k < |goals| && goals[k] == r.value && forall j :: 0 <= j < k ==> goals[j].id != id
    ensures r.None? ==> forall k :: 0 <= k < |goals| ==> goals[k].id != id
  {
    var i := FindIndex(goals, GoalHasId(id));
    if i < 0 then None else Some(goals[i])
  }

  /**
   * toggleTop5: a goal not yet in the top five is refused while five goals are; otherwise every
   * goal with that id flips in or out of the top five.
   */
  function ToggleTop5(goals: seq<YearlyGoal>, id: Id): (r: seq<YearlyGoal>)
    ensures |r| == |goals|
    ensures forall k :: 0 <= k < |goals| && goals[k].id != id ==> r[k] == goals[k]
    ensures Top5Count(goals) < MaxTop5 || (FindGoal(goals, id).Some? && FindGoal(goals, id).value.isTop5) ==>
      forall k :: 0 <= k < |goals| && goals[k].id == id ==> r[k] == goals[k].(isTop5 := !goals[k].isTop5)
    ensures Top5Count(goals) >= MaxTop5 && !(FindGoal(goals, id).Some? && FindGoal(goals, id).value.isTop5) ==>
      r == goals
  {
    var goal := FindGoal(goals, id);
    if !(goal.Some? && goal.value.isTop5) && Top5Count(goals) >= MaxTop5 then goals
    else
      seq(|goals|, k requires 0 <= k < |goals| =>
        if goals[k].id == id then goals[k].(isTop5 := !goals[k].isTop5) else goals[k])
  }

  function GoalHasId(id: Id): YearlyGoal -> bool {
    (g: YearlyGoal) => g.id == id
  }

  /** The goal list's delete button: keeps the goals with another id, in order. */
  function DeleteGoal(goals: seq<YearlyGoal>, id: Id): (r: seq<YearlyGoal>)
    ensures forall g :: g in r <==> g in goals && g.id != id
    ensures |r| + Count(goals, GoalHasId(id)) == |goals|
  {
    FilterMembers(goals, GoalHasId(id), false);
    FilterPartition(goals, GoalHasId(id));
    Filter(goals, GoalHasId(id), false)
  }

  /** With distinct ids, a toggle changes at most the one goal with that id. */
  lemma ToggleIsPointUpdate(goals: seq<YearlyGoal>, id: Id, j: int)
    requires UniqueGoalIds(goals) && 0 <= j < |goals| && goals[j].id == id
    ensures FindGoal(goals, id) == Some(goals[j])
    ensures ToggleTop5(goals, id) == goals
      || ToggleTop5(goals, id) == goals[j := goals[j].(isTop5 := !goals[j].isTop5)]
  {
    var r := ToggleTop5(goals, id);
    if r != goals {
      assert forall k :: 0 <= k < |goals| ==> r[k] == goals[j := goals[j].(isTop5 := !goals[j].isTop5)][k];
    }
  }

  /** Adding, toggling and deleting goals keep the list within 25 goals and 5 top goals (ids being distinct). */
  lemma CapsKept(goals: seq<YearlyGoal>, id: Id, title: string)
    requires WithinCaps(goals) && UniqueGoalIds(goals)
    ensures WithinCaps(AddGoal(goals, id, title))
    ensures WithinCaps(ToggleTop5(goals, id))
    ensures WithinCaps(DeleteGoal(goals, id))
  {
    AddKeepsCaps(goals, id, title);
    ToggleKeepsCaps(goals, id);
    CountOfFilter(goals, GoalHasId(id), false, IsTopGoal);
  }

  /** A new goal is never a top goal, and none is added to a full list. */
  lemma AddKeepsCaps(goals: seq<YearlyGoal>, id: Id, title: string)
    requires WithinCaps(goals)
    ensures WithinCaps(AddGoal(goals, id, title))
  {
    var added := AddGoal(goals, id, title);
    if |goals| < MaxGoals {
      var g := added[|goals|];
      FilterConcat(goals, [g], IsTopGoal, true);
      assert added == goals + [g];
      assert [g][..0] == [];
    }
  }

  /** A toggle refused at five top goals, or a single flip, keeps at most five top goals. */
  lemma ToggleKeepsCaps(goals: seq<YearlyGoal>, id: Id)
    requires WithinCaps(goals) && UniqueGoalIds(goals)
    ensures WithinCaps(ToggleTop5(goals, id))
  {
    var r := ToggleTop5(goals, id);
    if r != goals {
      var j :| 0 <= j < |goals| && goals[j].id == id && r[j] != goals[j];
      ToggleIsPointUpdate(goals, id, j);
      CountUpdate(goals, j, goals[j].(isTop5 := !goals[j].isTop5), IsTopGoal);
    }
  }

  /** Taking a goal out of the top five is never refused. */
  lemma DemotionAllowed(goals: seq<YearlyGoal>, id: Id)
    requires FindGoal(goals, id).Some? && FindGoal(goals, id).value.isTop5
    ensures exists k :: 0 <= k < |goals| && goals[k] == FindGoal(goals, id).value && !ToggleTop5(goals, id)[k].isTop5
  {
  }

  // ---------------------------------------------------------------------------
  // milestones and progress
  // ---------------------------------------------------------------------------

  function IsDone(m: Milestone): bool {
    m.isCompleted
  }

  function MilestoneHasId(id: Id): Milestone -> bool {
    (m: Milestone) => m.id == id
  }

  /** The progress a goal shows for its milestones: the completed percentage, 0 with none. */
  function ProgressOf(ms: seq<Milestone>): (p: int)
    ensures 0 <= p <= 100
    ensures ms == [] ==> p == 0
  {
    if |ms| > 0 then Percent(Count(ms, IsDone), |ms|) else 0
  }

  /** No milestone done reads 0%, every milestone done reads 100%, and each step between is rounded. */
  lemma ProgressEnds(ms: seq<Milestone>)
    requires ms != []
    ensures Count(ms, IsDone) == 0 ==> ProgressOf(ms) == 0
    ensures Count(ms, IsDone) == |ms| ==> ProgressOf(ms) == 100
    ensures 2 * |ms| * ProgressOf(ms) <= 200 * Count(ms, IsDone) + |ms| < 2 * |ms| * (ProgressOf(ms) + 1)
  {
    PercentEnds(|ms|);
  }

  /** A goal whose progress is the one its milestones give. */
  predicate ProgressTracksMilestones(g: YearlyGoal) {
    g.progress == ProgressOf(g.milestones.GetOr([]))
  }

  /** The milestones with one of them completed or reopened. */
  function FlipMilestone(ms: seq<Milestone>, id: Id): (r: seq<Milestone>)
    ensures |r| == |ms|
    ensures forall i :: 0 <= i < |ms| ==> r[i].id == ms[i].id
    ensures forall i :: 0 <= i < |ms| ==> r[i].isCompleted == (ms[i].isCompleted != (ms[i].id == id))
  {
    seq(|ms|, i requires 0 <= i < |ms| =>
      if ms[i].id == id then ms[i].(isCompleted := !ms[i].isCompleted) else ms[i])
  }

  /** Completing and reopening a milestone restores the list. */
  lemma FlipTwice(ms: seq<Milestone>, id: Id)
    ensures FlipMilestone(FlipMilestone(ms, id), id) == ms
  {
    var r := FlipMilestone(FlipMilestone(ms, id), id);
    assert forall i :: 0 <= i < |ms| ==> r[i] == ms[i];
  }

  /** The goal with its milestone list replaced and its progress recomputed. */
  function WithMilestones(g: YearlyGoal, ms: seq<Milestone>): (r: YearlyGoal)
    ensures r.milestones == Some(ms) && ProgressTracksMilestones(r) && ProgressInRange(r)
    ensures r.(milestones := g.milestones, progress := g.progress) == g
  {
    g.(milestones := Some(ms), progress := ProgressOf(ms))
  }

  /** `goals.map(g => g.id !== goalId ? g : edit(g))`. */
  function EditGoals(goals: seq<YearlyGoal>, goalId: Id, edit: YearlyGoal -> YearlyGoal): (r: seq<YearlyGoal>)
    ensures |r| == |goals|
    ensures forall k :: 0 <= k < |goals| ==> r[k] == if goals[k].id == goalId then edit(goals[k]) else goals[k]
  {
    seq(|goals|, k requires 0 <= k < |goals| => if goals[k].id == goalId then edit(goals[k]) else goals[k])
  }

  function AppendMilestone(m: Milestone): YearlyGoal -> YearlyGoal {
    (g: YearlyGoal) => WithMilestones(g, g.milestones.GetOr([]) + [m])
  }

  function FlipIn(id: Id): YearlyGoal -> YearlyGoal {
    (g: YearlyGoal) => WithMilestones(g, FlipMilestone(g.milestones.GetOr([]), id))
  }

  function DropFrom(id: Id): YearlyGoal -> YearlyGoal {
    (g: YearlyGoal) => WithMilestones(g, Filter(g.milestones.GetOr([]), MilestoneHasId(id), false))
  }

  /**
   * handleAddMilestone: refused unless the title, the start and the deadline are all filled in;
   * otherwise the goals with that id get an open milestone at the end of their list.
   */
  function AddMilestone(goals: seq<YearlyGoal>, goalId: Id, id: Id, title: string, start: Option<Day>, end: Option<Day>)
    : (r: seq<YearlyGoal>)
    ensures title == "" || start.None? || end.None? ==> r == goals
    ensures title != "" && start.Some? && end.Some? ==>
      |r| == |goals| &&
      forall k :: 0 <= k < |goals| ==>
        if goals[k].id != goalId then r[k] == goals[k]
        else (r[k].milestones == Some(goals[k].milestones.GetOr([]) + [Milestone(id, title, false, start, end)])
          && ProgressTracksMilestones(r[k]) && ProgressInRange(r[k]))
  {
    if title == "" || start.None? || end.None? then goals
    else EditGoals(goals, goalId, AppendMilestone(Milestone(id, title, false, start, end)))
  }

  /** toggleMilestone: in the goals with that id, the milestone is completed or reopened and progress recomputed. */
  function ToggleMilestone(goals: seq<YearlyGoal>, goalId: Id, id: Id): (r: seq<YearlyGoal>)
    ensures |r| == |goals|
    ensures forall k :: 0 <= k < |goals| ==>
      if goals[k].id != goalId then r[k] == goals[k]
      else (r[k].milestones == Some(FlipMilestone(goals[k].milestones.GetOr([]), id))
        && ProgressTracksMilestones(r[k]) && ProgressInRange(r[k]))
  {
    EditGoals(goals, goalId, FlipIn(id))
  }

  /** deleteMilestone: in the goals with that id, the milestone is removed and progress recomputed. */
  function DeleteMilestone(goals: seq<YearlyGoal>, goalId: Id, id: Id): (r: seq<YearlyGoal>)
    ensures |r| == |goals|
    ensures forall k :: 0 <= k < |goals| ==>
      if goals[k].id != goalId then r[k] == goals[k]
      else (r[k].milestones == Some(Filter(goals[k].milestones.GetOr([]), MilestoneHasId(id), false))
        && ProgressTracksMilestones(r[k]) && ProgressInRange(r[k]))
  {
    EditGoals(goals, goalId, DropFrom(id))
  }

  /** A new milestone counts as not done: adding one never raises the completed count. */
  lemma AddedMilestoneOpen(ms: seq<Milestone>, m: Milestone)
    requires !m.isCompleted
    ensures Count(ms + [m], IsDone) == Count(ms, IsDone)
  {
    FilterConcat(ms, [m], IsDone, true);
    assert [m][..0] == [];
  }

  /** Deleting a milestone just added restores the goal's milestone list. */
  lemma AddThenDeleteMilestone(goals: seq<YearlyGoal>, goalId: Id, id: Id, title: string, start: Day, end: Day)
    requires title != ""
    requires forall k, i :: 0 <= k < |goals| && 0 <= i < |goals[k].milestones.GetOr([])| ==>
      goals[k].milestones.GetOr([])[i].id != id
    ensures var r := DeleteMilestone(AddMilestone(goals, goalId, id, title, Some(start), Some(end)), goalId, id);
      |r| == |goals| &&
      forall k :: 0 <= k < |goals| ==>
        r[k].milestones == (if goals[k].id == goalId then Some(goals[k].milestones.GetOr([])) else goals[k].milestones)
  {
    var m := Milestone(id, title, false, Some(start), Some(end));
    var added := AddMilestone(goals, goalId, id, title, Some(start), Some(end));
    forall k | 0 <= k < |goals| && goals[k].id == goalId
      ensures Filter(goals[k].milestones.GetOr([]) + [m], MilestoneHasId(id), false) == goals[k].milestones.GetOr([])
    {
      var ms := goals[k].milestones.GetOr([]);
      FilterConcat(ms, [m], MilestoneHasId(id), false);
      FilterAllPass(ms, MilestoneHasId(id), false);
      assert [m][..0] == [];
    }
  }

  /** A goal's completed count grows by one when an open milestone with a fresh id is completed. */
  lemma CompletingRaisesCount(ms: seq<Milestone>, j: int)
    requires 0 <= j < |ms| && !ms[j].isCompleted
    requires forall i :: 0 <= i < |ms| && i != j ==> ms[i].id != ms[j].id
    ensures Count(FlipMilestone(ms, ms[j].id), IsDone) == Count(ms, IsDone) + 1
  {
    var flipped := ms[j].(isCompleted := true);
    assert FlipMilestone(ms, ms[j].id) == ms[j := flipped];
    CountUpdate(ms, j, flipped, IsDone);
  }

  // ---------------------------------------------------------------------------
  // deadlines
  // ---------------------------------------------------------------------------

  /** An open milestone whose deadline lies before today. */
  predicate IsOverdue(m: Milestone, today: Day) {
    !m.isCompleted && m.deadline.Some? && m.deadline.value < today
  }

  /** The first overdue milestone of the list. */
  function FirstOverdue(ms: seq<Milestone>, today: Day): (r: Option<Milestone>)
    ensures r.Some? ==>
      IsOverdue(r.value, today) &&
      exists k :: 0 <= k < |ms| && ms[k] == r.value && forall i :: 0 <= i < k ==> !IsOverdue(ms[i], today)
    ensures r.None? ==> forall k :: 0 <= k < |ms| ==> !IsOverdue(ms[k], today)
  {
    if ms == [] then None
    else if IsOverdue(ms[0], today) then Some(ms[0])
    else
      var r := FirstOverdue(ms[1..], today);
      assert r.Some? ==>
        exists k :: 1 <= k < |ms| && ms[k] == r.value && forall i :: 0 <= i < k ==> !IsOverdue(ms[i], today) by {
        if r.Some? {
          var k :| 0 <= k < |ms[1..]| && ms[1..][k] == r.value
            && forall i :: 0 <= i < k ==> !IsOverdue(ms[1..][i], today);
          assert forall i :: 1 <= i < k + 1 ==> ms[i] == ms[1..][i - 1];
        }
      }
      r
  }

  /** getOverdueMilestone: nothing for a goal without a milestone list, else the first overdue one. */
  function OverdueMilestone(milestones: Option<seq<Milestone>>, today: Day): (r: Option<Milestone>)
    ensures milestones.None? ==> r.None?
    ensures r.Some? ==> IsOverdue(r.value, today) && r.value in milestones.value
  {
    if milestones.None? then None else FirstOverdue(milestones.value, today)
  }

  datatype MilestoneState = Completed | Overdue | Upcoming | InProgress

  /** getMilestoneStatus: completed first, then overdue, then not yet started, else in progress. */
  function MilestoneStatus(m: Milestone, today: Day): (s: MilestoneState)
    ensures s == Completed <==> m.isCompleted
    ensures s == Overdue <==> IsOverdue(m, today)
    ensures s == Upcoming <==> !m.isCompleted && !IsOverdue(m, today) && m.startDate.Some? && m.startDate.value > today
  {
    if m.isCompleted then Completed
    else if m.deadline.Some? && m.deadline.value < today then Overdue
    else if m.startDate.Some? && m.startDate.value > today then Upcoming
    else InProgress
  }

  /** The goal's overdue badge and the milestone list agree: the badge names a milestone listed as overdue, and no badge means none is. */
  lemma BadgeMatchesList(ms: seq<Milestone>, today: Day)
    ensures OverdueMilestone(Some(ms), today).Some? ==>
      MilestoneStatus(OverdueMilestone(Some(ms), today).value, today) == Overdue
    ensures OverdueMilestone(Some(ms), today).None? <==>
      forall k :: 0 <= k < |ms| ==> MilestoneStatus(ms[k], today) != Overdue
  {
  }

  // ---------------------------------------------------------------------------
  // the month grid
  // ---------------------------------------------------------------------------

  /** The first and last day of the 0-based month `monthIdx` of `year`, as `new Date(year, monthIdx, 1)` and `new Date(year, monthIdx + 1, 0)`. */
  function MonthBounds(year: int, monthIdx: int): (r: (Day, Day))
    requires 0 <= monthIdx <= 11
    ensures r.0 == DaysFromCivil(Date(year, monthIdx + 1, 1))
    ensures r.1 - r.0 + 1 == DaysInMonth(year, monthIdx + 1)
  {
    MakeDayInRange(year, monthIdx, 1);
    MonthSpan(year, monthIdx);
    (MakeDay(year, monthIdx, 1), MakeDay(year, monthIdx + 1, 0))
  }

  /** A milestone with both dates whose span meets the days `first..last`. */
  predicate MeetsSpan(m: Milestone, first: Day, last: Day) {
    m.startDate.Some? && m.deadline.Some? && m.startDate.value <= last && m.deadline.value >= first
  }

  function ActiveIn(first: Day, last: Day): Milestone -> bool {
    (m: Milestone) => MeetsSpan(m, first, last)
  }

  datatype MonthStatus = NONE | COMPLETED | OVERDUE | DOING | PLANNED

  /** getMonthInfo's status over the days `first..last`: the most pressing state of the milestones active then. */
  function SpanStatus(ms: seq<Milestone>, first: Day, last: Day, today: Day): (r: MonthStatus)
    ensures r != PLANNED
    ensures ms == [] ==> r == NONE
  {
    var active := Filter(ms, ActiveIn(first, last), true);
    if |active| == 0 then NONE
    else if forall i :: 0 <= i < |active| ==> active[i].isCompleted then COMPLETED
    else if exists i :: 0 <= i < |active| && IsOverdue(active[i], today) then OVERDUE
    else if exists i :: 0 <= i < |active| && !active[i].isCompleted then MonthStatus.DOING
    else PLANNED
  }

  /** getMonthInfo's status for the 0-based month `monthIdx` of `year`; a goal without milestones has none. */
  function MonthInfo(milestones: Option<seq<Milestone>>, year: int, monthIdx: int, today: Day): (r: MonthStatus)
    requires 0 <= monthIdx <= 11
    ensures r != PLANNED
    ensures milestones.None? ==> r == NONE
  {
    var (first, last) := MonthBounds(year, monthIdx);
    SpanStatus(milestones.GetOr([]), first, last, today)
  }

  /**
   * What each status means, in terms of the milestones whose start-to-deadline span meets the
   * days `first..last`; PLANNED never comes out.
   */
  lemma SpanStatusMeaning(ms: seq<Milestone>, first: Day, last: Day, today: Day)
    ensures var s := SpanStatus(ms, first, last, today);
      s != PLANNED
      && (s == NONE <==> forall m :: m in ms ==> !MeetsSpan(m, first, last))
      && (s == COMPLETED <==>
            (exists m :: m in ms && MeetsSpan(m, first, last))
            && forall m :: m in ms && MeetsSpan(m, first, last) ==> m.isCompleted)
      && (s == OVERDUE <==> exists m :: m in ms && MeetsSpan(m, first, last) && IsOverdue(m, today))
      && (s == MonthStatus.DOING <==>
            (exists m :: m in ms && MeetsSpan(m, first, last) && !m.isCompleted)
            && forall m :: m in ms && MeetsSpan(m, first, last) ==> !IsOverdue(m, today))
  {
    var active := Filter(ms, ActiveIn(first, last), true);
    FilterMembers(ms, ActiveIn(first, last), true);
    assert forall m :: m in active <==> m in ms && MeetsSpan(m, first, last);
    if |active| > 0 {
      assert active[0] in active;
    }
  }

  /** The colours of the month grid: SpanStatusMeaning over the month's first to last day. */
  lemma MonthInfoMeaning(ms: seq<Milestone>, year: int, monthIdx: int, today: Day)
    requires 0 <= monthIdx <= 11
    ensures var (first, last) := MonthBounds(year, monthIdx);
      var s := MonthInfo(Some(ms), year, monthIdx, today);
      s != PLANNED
      && (s == NONE <==> forall m :: m in ms ==> !MeetsSpan(m, first, last))
      && (s == COMPLETED <==>
            (exists m :: m in ms && MeetsSpan(m, first, last))
            && forall m :: m in ms && MeetsSpan(m, first, last) ==> m.isCompleted)
      && (s == OVERDUE <==> exists m :: m in ms && MeetsSpan(m, first, last) && IsOverdue(m, today))
      && (s == MonthStatus.DOING <==>
            (exists m :: m in ms && MeetsSpan(m, first, last) && !m.isCompleted)
            && forall m :: m in ms && MeetsSpan(m, first, last) ==> !IsOverdue(m, today))
  {
    var (first, last) := MonthBounds(year, monthIdx);
    SpanStatusMeaning(ms, first, last, today);
  }

  /** The month grid's year runs from January 1st to December 31st without gaps. */
  lemma MonthsFollowEachOther(year: int, monthIdx: int)
    requires 0 <= monthIdx < 11
    ensures MonthBounds(year, monthIdx + 1).0 == MonthBounds(year, monthIdx).1 + 1
  {
    MonthLength(year, monthIdx + 1);
  }

  // ---------------------------------------------------------------------------
  // the weekly Eisenhower board
  // ---------------------------------------------------------------------------

  /** getWeekRangeDisplay: the Monday through Sunday the board shows, computed from getDay as the source does. */
  function WeekRange(viewDate: Day): (r: (Day, Day))
    ensures r.0 == MondayOf(viewDate) && r.1 == r.0 + 6
    ensures r.0 <= viewDate <= r.1
  {
    var day := JsDay(viewDate);
    var monday := viewDate - day + (if day == 0 then -6 else 1);
    (monday, monday + 6)
  }

  /** A day shares the viewed week's key exactly when it falls in the displayed range. */
  lemma WeekRangeIsKeyWeek(viewDate: Day, d: Day)
    ensures IsoWeekKey(d) == IsoWeekKey(viewDate) <==> WeekRange(viewDate).0 <= d <= WeekRange(viewDate).1
  {
    SameKeyIffSameWeek(d, viewDate);
    var m, md := MondayOf(viewDate), MondayOf(d);
    if m <= d <= m + 6 && md != m {
      if md < m {
        MondaysWeeksApart(md, m);
      } else {
        MondaysWeeksApart(m, md);
      }
    }
  }

  function InWeek(key: WeekKey): Task -> bool {
    (t: Task) => t.assignWeek == Some(key)
  }

  /** weeklyTasks: the tasks tagged with the viewed week's key, in order. */
  function WeeklyTasks(tasks: seq<Task>, viewDate: Day): (r: seq<Task>)
    ensures forall t :: t in r <==> t in tasks && t.assignWeek == Some(IsoWeekKey(viewDate))
  {
    FilterMembers(tasks, InWeek(IsoWeekKey(viewDate)), true);
    Filter(tasks, InWeek(IsoWeekKey(viewDate)), true)
  }

  /** The board's addTask: a TODO task in the quadrant, SHOULD in MoSCoW, for the viewed week and no particular day. */
  function AddTask(tasks: seq<Task>, id: Id, title: string, quadrant: Quadrant, size: PickleSize, week: WeekKey)
    : (r: seq<Task>)
    ensures |r| == |tasks| + 1 && r[..|tasks|] == tasks
    ensures var t := r[|tasks|];
      t.id == id && t.title == title && t.status == TODO && t.quadrant == quadrant && t.pickleSize == size
      && t.moscow == Some(SHOULD) && t.assignWeek == Some(week) && t.assignDate.None?
  {
    tasks + [Task(id, title, TODO, quadrant, size, None, None, None, None, None, None, Some(SHOULD), None, Some(week))]
  }

  /** A task added on the board keeps every task's week key in step with its day key. */
  lemma BoardAddKeepsWeeksInStep(tasks: seq<Task>, id: Id, title: string, quadrant: Quadrant, size: PickleSize, week: WeekKey)
    requires App.AllWeeksMatchDates(tasks)
    ensures App.AllWeeksMatchDates(AddTask(tasks, id, title, quadrant, size, week))
  {
    var r := AddTask(tasks, id, title, quadrant, size, week);
    assert forall k :: 0 <= k < |tasks| ==> r[k] == tasks[k];
  }

  /** A task the daily planner adds shows on the board exactly for the days of its Monday-to-Sunday week. */
  lemma PlannerTaskOnBoard(tasks: seq<Task>, id: Id, title: string, size: PickleSize, date: Day, viewDate: Day)
    ensures var r := App.PlannerAddTask(tasks, id, title, size, date);
      r[|tasks|] in WeeklyTasks(r, viewDate) <==> WeekRange(viewDate).0 <= date <= WeekRange(viewDate).1
  {
    var r := App.PlannerAddTask(tasks, id, title, size, date);
    FilterMembers(r, InWeek(IsoWeekKey(viewDate)), true);
    assert r[|tasks|] in r;
    WeekRangeIsKeyWeek(viewDate, date);
  }

  /** The board's own state: the day whose week it shows and the four quick-add inputs. */
  class Board {
    var viewDate: Day
    var quickAddInputs: map<Quadrant, string>

    predicate Valid()
      reads this
    {
      quickAddInputs.Keys == {Q1, Q2, Q3, Q4}
    }

    constructor(today: Day)
      ensures Valid() && viewDate == today
      ensures forall q :: q in quickAddInputs ==> quickAddInputs[q] == ""
    {
      viewDate := today;
      quickAddInputs := map[Q1 := "", Q2 := "", Q3 := "", Q4 := ""];
    }

    /** The key of the week on show. */
    function CurrentWeekKey(): WeekKey
      reads this
    {
      IsoWeekKey(viewDate)
    }

    /** changeWeek: moves the view by whole weeks; the inputs keep their text. */
    method ChangeWeek(offset: int)
      modifies this
      ensures viewDate == old(viewDate) + 7 * offset && quickAddInputs == old(quickAddInputs)
      ensures WeekRange(viewDate).0 == WeekRange(old(viewDate)).0 + 7 * offset
    {
      viewDate := viewDate + 7 * offset;
      WeekdayPeriodic(old(viewDate), offset);
    }

    /** handleInputChange: the quadrant's input holds the new text. */
    method InputChange(q: Quadrant, value: string)
      requires Valid()
      modifies this
      ensures Valid() && quickAddInputs == old(quickAddInputs)[q := value] && viewDate == old(viewDate)
    {
      quickAddInputs := quickAddInputs[q := value];
    }

    /**
     * handleQuickAdd: the quadrant's trimmed text, when not blank, becomes a SAND task of the week
     * on show and the input is cleared; blank text changes nothing.
     */
    method QuickAdd(q: Quadrant, tasks: seq<Task>, id: Id) returns (r: seq<Task>)
      requires Valid()
      modifies this
      ensures Valid() && viewDate == old(viewDate)
      ensures Trim(old(quickAddInputs)[q]) == "" ==> r == tasks && quickAddInputs == old(quickAddInputs)
      ensures Trim(old(quickAddInputs)[q]) != "" ==>
        r == AddTask(tasks, id, Trim(old(quickAddInputs)[q]), q, SAND, CurrentWeekKey())
        && quickAddInputs == old(quickAddInputs)[q := ""]
        && r[|tasks|] in WeeklyTasks(r, viewDate)
    {
      var title := Trim(quickAddInputs[q]);
      if title == "" {
        return tasks;
      }
      r := AddTask(tasks, id, title, q, SAND, CurrentWeekKey());
      FilterMembers(r, InWeek(IsoWeekKey(viewDate)), true);
      assert r[|tasks|] in r;
      quickAddInputs := quickAddInputs[q := ""];
    }
  }
}

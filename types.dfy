/**
 * The records and enumerations shared by the app's screens. Dates the source stores as
 * `YYYY-MM-DD` strings are day numbers here (see Calendar.DateText for the string and its
 * order), week keys are `Calendar.WeekKey` values, and optional fields are `Option`s.
 */
module Types {
  import opened Wrappers
  import opened Calendar

  type Id = string

  datatype TaskStatus = TODO | DOING | DONE

  /** The Eisenhower quadrants: Q1 important and urgent, Q2 important, Q3 urgent, Q4 neither. */
  datatype Quadrant = Q1 | Q2 | Q3 | Q4

  predicate IsUrgent(q: Quadrant) {
    q == Q1 || q == Q3
  }

  predicate IsImportant(q: Quadrant) {
    q == Q1 || q == Q2
  }

  /** The quadrant the task editor's "urgent" and "important" checkboxes select. */
  function QuadrantOf(urgent: bool, important: bool): (q: Quadrant) {
    if urgent && important then Q1
    else if !urgent && important then Q2
    else if urgent && !important then Q3
    else Q4
  }

  /** The two checkboxes and the quadrant determine each other. */
  lemma QuadrantCheckboxes(q: Quadrant, urgent: bool, important: bool)
    ensures QuadrantOf(IsUrgent(q), IsImportant(q)) == q
    ensures IsUrgent(QuadrantOf(urgent, important)) == urgent
    ensures IsImportant(QuadrantOf(urgent, important)) == important
  {
  }

  /** The pickle-jar sizes: rocks are the big tasks, sand the small ones. */
  datatype PickleSize = ROCK | PEBBLE | SAND

  datatype Moscow = MUST | SHOULD | COULD | WONT

  datatype Task = Task(
    id: Id,
    title: string,
    status: TaskStatus,
    quadrant: Quadrant,
    pickleSize: PickleSize,
    dueDate: Option<Day>,
    description: Option<string>,
    note: Option<string>,
    completedAt: Option<int>,
    durationMinutes: Option<int>,
    yearlyGoalId: Option<Id>,
    moscow: Option<Moscow>,
    assignDate: Option<Day>,          // the daily planner's day key
    assignWeek: Option<WeekKey>)      // the Eisenhower board's week key

  datatype Milestone = Milestone(
    id: Id,
    title: string,
    isCompleted: bool,
    startDate: Option<Day>,
    deadline: Option<Day>)

  datatype YearlyGoal = YearlyGoal(
    id: Id,
    title: string,
    isTop5: bool,
    progress: int,                    // a percentage, 0..100
    deadline: Option<Day>,
    milestones: Option<seq<Milestone>>)

  datatype ScheduleBlock = ScheduleBlock(time: string, taskLeft: Option<string>, taskRight: Option<string>)

  datatype DailyFinance = DailyFinance(income: int, expense: int)

  datatype DailyHabit = DailyHabit(id: Id, name: string, completed: bool)

  datatype Mood = Great | Good | Neutral | Bad

  /**
   * One day of the planner. `schedule` is declared required, but logs read back from storage
   * may lack it and the source tests for it, so it is optional here as well.
   */
  datatype DailyLog = DailyLog(
    date: Day,
    gratitude: string,
    successJournal: string,
    lessonLearned: string,
    mood: Option<Mood>,
    moodNote: string,
    finance: DailyFinance,
    futureNote: string,
    schedule: Option<seq<ScheduleBlock>>,
    bigGoal: Option<string>,
    bigGoalCompleted: Option<bool>,
    bigGoalTime: Option<string>,
    bigGoalYearlyGoalId: Option<Id>,
    habits: Option<seq<DailyHabit>>)

  /** The spaced-repetition ladder: days until the next review, by stage reached. */
  const SrsIntervals: seq<nat> := [1, 3, 7, 14, 30]

  /** The stage of a mastered card; stages run 0..MasteredStage. */
  const MasteredStage: nat := |SrsIntervals|

  /** The ladder has one rung per stage above 0, its rungs are positive and strictly increasing. */
  lemma LadderShape()
    ensures MasteredStage == 5
    ensures forall i :: 0 <= i < |SrsIntervals| ==> SrsIntervals[i] >= 1
    ensures forall i, j :: 0 <= i < j < |SrsIntervals| ==> SrsIntervals[i] < SrsIntervals[j]
  {
  }

  datatype Flashcard = Flashcard(
    id: Id,
    question: string,
    answer: string,
    stage: nat,                       // 0..MasteredStage
    nextReviewDate: Day,
    lastReviewed: Option<Day>)        // absent until the first review

  /** A note owns an ordered list of flashcards. */
  datatype KnowledgeNote = KnowledgeNote(
    id: Id,
    title: string,
    content: string,
    category: string,
    createdAt: Day,
    flashcards: seq<Flashcard>)

  predicate StageInRange(c: Flashcard) {
    c.stage <= MasteredStage
  }

  predicate ProgressInRange(g: YearlyGoal) {
    0 <= g.progress <= 100
  }
}

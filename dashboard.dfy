/** The dashboard's figures: the completion rate, the pickle-jar and Eisenhower breakdowns, and deep work in hours and minutes. */
module Dashboard {
  import opened Types
  import opened Seqs
  import opened Percentages
  import App

  /** completionRate: 0 with no tasks, else the rounded percentage of DONE tasks. */
  function CompletionRate(tasks: seq<Task>): (r: nat)
    ensures r <= 100
    ensures tasks == [] ==> r == 0
    ensures tasks != [] ==>
      var done, total := App.DoneCount(tasks), |tasks|;
      2 * total * r <= 200 * done + total < 2 * total * (r + 1)
  {
    if |tasks| == 0 then 0 else Percent(App.DoneCount(tasks), |tasks|)
  }

  /** No task done reads 0%, every task done reads 100%. */
  lemma CompletionRateEnds(tasks: seq<Task>)
    requires tasks != []
    ensures App.DoneCount(tasks) == 0 ==> CompletionRate(tasks) == 0
    ensures App.DoneCount(tasks) == |tasks| ==> CompletionRate(tasks) == 100
  {
    PercentEnds(|tasks|);
  }

  function HasSize(size: PickleSize): Task -> bool {
    (t: Task) => t.pickleSize == size
  }

  function InQuadrant(q: Quadrant): Task -> bool {
    (t: Task) => t.quadrant == q
  }

  /** rockCount, pebbleCount and sandCount. */
  function SizeCount(tasks: seq<Task>, size: PickleSize): nat {
    Count(tasks, HasSize(size))
  }

  /** The four slices of the Eisenhower chart. */
  function QuadrantCount(tasks: seq<Task>, q: Quadrant): nat {
    Count(tasks, InQuadrant(q))
  }

  /** Every task is in exactly one slice of the pickle jar. */
  lemma {:induction false} SizeCountsSum(tasks: seq<Task>)
    ensures SizeCount(tasks, ROCK) + SizeCount(tasks, PEBBLE) + SizeCount(tasks, SAND) == |tasks|
  {
    if tasks != [] {
      SizeCountsSum(tasks[..|tasks| - 1]);
    }
  }

  /** Every task is in exactly one slice of the Eisenhower chart. */
  lemma {:induction false} QuadrantCountsSum(tasks: seq<Task>)
    ensures QuadrantCount(tasks, Q1) + QuadrantCount(tasks, Q2) + QuadrantCount(tasks, Q3) + QuadrantCount(tasks, Q4)
      == |tasks|
  {
    if tasks != [] {
      QuadrantCountsSum(tasks[..|tasks| - 1]);
    }
  }

  /** deepWorkHours and deepWorkMinsRem: whole hours and the minutes left over. */
  function DeepWorkSplit(minutes: nat): (r: (nat, nat))
    ensures r.0 * 60 + r.1 == minutes && r.1 < 60
  {
    (minutes / 60, minutes % 60)
  }

  /** The split is the only one with fewer than 60 minutes left over. */
  lemma DeepWorkSplitUnique(minutes: nat, hours: nat, rem: nat)
    requires hours * 60 + rem == minutes && rem < 60
    ensures DeepWorkSplit(minutes) == (hours, rem)
  {
  }

  /** The app's deep-work minutes are whole hours: one per DONE Q2 task of the day and no minutes left over. */
  lemma DeepWorkWholeHours(tasks: seq<Task>, date: int)
    ensures DeepWorkSplit(App.DeepWorkMinutes(tasks, date)) == (Count(App.DailyTasks(tasks, date), App.IsDeepWork), 0)
  {
    DeepWorkSplitUnique(App.DeepWorkMinutes(tasks, date), Count(App.DailyTasks(tasks, date), App.IsDeepWork), 0);
  }
}

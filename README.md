# CHAIYOPLAN planner core in Dafny

CHAIYOPLAN is a personal planning app. It has a daily planner (an hour-by-hour schedule, a task
list, habits and a month calendar), a Learning screen (notes that own flashcards, reviewed on a
spaced-repetition ladder of 1, 3, 7, 14 and 30 days), a Tools screen (the 5/25 list of yearly
goals with milestones and a month grid, and a weekly Eisenhower board), a Dashboard of task
statistics and a pomodoro timer. This project models the logic of those screens and proves what
they promise.

Modelling conventions:

- Dates are day numbers (day 0 is 1970-01-01). `Calendar` converts them to Gregorian dates and to
  the `YYYY-MM-DD` keys the app stores. It proves that comparing those keys as strings is
  comparing the days, so the app's string comparisons are written as comparisons of day numbers.
- "Today" is always a parameter, and so is every new id.
- Week keys are the app's `year-Wweek` ISO 8601 week keys (section 3.2.2 of ISO 8601:2004).
- Lists the app replaces wholesale (tasks, goals, the knowledge base, a day's log) are values.
  Functions transform them.
- State a screen updates in place is a class, with `modifies` on its methods:
  - the log history and current log (`App.AppState`);
  - the review session (`Learning.LearningScreen`);
  - the Eisenhower board's week and inputs (`Tools.Board`);
  - the planner's editing fields and calendar month (`Planner.PlannerScreen`);
  - the timer (`Pomodoro.Timer`).

Modules:

- `Text`: trim, decimal digits, zero-padding and string order.
- `Calendar`: day numbers, Gregorian dates, `YYYY-MM-DD`, JavaScript's `new Date(y, m, d)` carry rules and the ISO week key.
- `Types`: the records of `types.ts`.
- `Seqs`: filter and count.
- `Percentages`: `Math.round(c / n * 100)`.
- `Learning`: the spaced-repetition engine.
- `App`: the default log, the log history and the task handlers.
- `Tools`: goals, milestones, the month grid and the weekly board.
- `Planner`: the daily planner.
- `Dashboard`: the statistics.
- `Pomodoro`: the timer.

## Model

| member | source | states |
|---|---|---|
| Types.LadderShape | types.ts:91 | every rung of the ladder is positive and the rungs strictly increase; the mastered stage is 5 |
| Types.QuadrantCheckboxes | components/DailyPlanner.tsx:846-873 | the urgent (Q1 or Q3) and important (Q1 or Q2) flags determine the quadrant and are read back from it |
| Text.Trim | components/Tools.tsx:113 | the result is the slice of the input between a white-space prefix and a white-space suffix, and has no white space at either end |
| Text.BlankIffAllSpace | components/Learning.tsx:34 | `!s.trim()` holds exactly when every character is white space |
| Text.TrimIdempotent | components/Tools.tsx:113 | trimming twice is trimming once |
| Text.DecimalRoundTrip | App.tsx:67 | `${n}` reads back as n |
| Text.Pad2RoundTrip | components/Pomodoro.tsx:51 | the zero-padding idiom gives digits, at least two, exactly two below 100, reading back as n |
| Text.FixedDigitsOrder | components/Learning.tsx:98 | fixed-width digit strings compare as strings exactly as their numbers compare |
| Calendar.DateTextRoundTrip | components/Learning.tsx:29 | a day's `YYYY-MM-DD` key parses back to the same day (years 0..9999) |
| Calendar.DateTextOrder | components/Learning.tsx:98 | `<` and `<=` on `YYYY-MM-DD` keys are `<` and `<=` on the days |
| Calendar.DateText | components/Learning.tsx:29 | a day with a four-digit year gives ten characters with dashes at positions 4 and 7 |
| Calendar.DateFieldsOrder | components/Learning.tsx:98 | comparing the zero-padded `YYYY-MM-DD` strings of two dates character by character orders them by year, then month, then day |
| Calendar.IsoThursday | App.tsx:63-64 | `getUTCDay() \|\| 7` and `+ 4 - dayNum` land on the Thursday of the Monday-to-Sunday week |
| Calendar.IsoWeekKey | App.tsx:60-68 | the week is in 1..53 and the year is the year of the week's Thursday |
| Calendar.WeekNumber | App.tsx:66 | the `Math.ceil` week number is the number of whole weeks before the Thursday in its year, plus one |
| Calendar.SameWeekSameKey | App.tsx:60-68 | all seven days of a Monday-to-Sunday week get the same key |
| Calendar.January4InWeekOne | App.tsx:60-68 | January 4th is in week 1 of its own year, as ISO 8601 requires |
| Calendar.NextWeekKey | App.tsx:60-68 | the following week has the next week number, or week 1 of the next year |
| Calendar.LaterWeekLaterKey | App.tsx:60-68 | later weeks have strictly later keys |
| Calendar.SameKeyIffSameWeek | App.tsx:60-68 | two days share a key exactly when they share a Monday |
| Calendar.EarlierWeekEarlierKey | App.tsx:60-68 | a day of an earlier Monday-to-Sunday week has a strictly earlier (year, week) key |
| Calendar.NextWeekLaterKey | App.tsx:60-68 | the day seven days on has a strictly later (year, week) key |
| Calendar.WeekKeyText | App.tsx:67 | the key text is as long as the year's digits, two characters and the week's unpadded digits, with `-W` right after the year |
| Calendar.WeekKeyTextInjective | App.tsx:67 | different week keys have different texts |
| Calendar.MondayOf | components/Tools.tsx:44-46 | the Monday of a day's week is a Monday at most six days earlier |
| Calendar.WeekdayPeriodic | components/Tools.tsx:51-55 | moving by whole weeks keeps the weekday and moves the Monday by the same weeks |
| Calendar.DaysInMonthJsIsMonthLength | components/DailyPlanner.tsx:179 | `new Date(y, m + 1, 0).getDate()` is the length of the 0-based month m |
| Calendar.DaysInMonthJs | components/DailyPlanner.tsx:179 | `getDate()` of `new Date(y, m + 1, 0)` is a day of a month, 1 to 31, for any arguments |
| Calendar.MakeDayInRange | components/Tools.tsx:178 | `new Date(y, m, d)` for an in-range month and day is that calendar date |
| Calendar.MonthSpan | components/Tools.tsx:178-179 | day 0 of the next month closes a span of the month's length from its 1st |
| Calendar.MakeDay | components/Tools.tsx:178 | for a 0-based month in range, `new Date(y, m, d)` counts `d - 1` days on from the month's first day, so day 0 is the day before it and days past the end run into the next month |
| Calendar.NextMonthStart | components/DailyPlanner.tsx:179 | `new Date(y, m + 1, 1)` is the day after the last day of month `m + 1` of year `y`, with December carrying into January |
| Percentages.Percent | components/Dashboard.tsx:17 | round half up of 100 × done / total: in 0..100 and within half a point of the exact ratio |
| Percentages.PercentEnds | components/Dashboard.tsx:17 | nothing done gives 0, everything done gives 100 |
| Learning.NextStage | components/Learning.tsx:125-139 | the stage never exceeds 5, and it is 0 exactly after a failure |
| Learning.SuccessInterval | components/Learning.tsx:132 | the interval after a success is always a rung of the ladder |
| Learning.Answered | components/Learning.tsx:118-154 | the answered card keeps its id and text, is reviewed today, has a stage in 0..5 and is due strictly after today |
| Learning.SuccessNeverStageZero | components/Learning.tsx:127-132 | a success reaches at least stage 1, so the `newStage === 0` arm is dead; the interval is rung min(stage, 4) |
| Learning.SuccessClimbsLadder | components/Learning.tsx:125-134 | success sets the stage to min(stage + 1, 5) and the next review to today plus rung min(stage, 4) |
| Learning.FailureResets | components/Learning.tsx:135-139 | failure sets the stage to 0 and the next review to tomorrow, whatever the stage was |
| Learning.MasteredKeepsThirtyDays | components/Learning.tsx:127-132 | a mastered card stays mastered on success and waits 30 days |
| Learning.SuccessIntervalMonotone | components/Learning.tsx:132 | higher stages never wait less, and strictly more below mastery |
| Learning.StreakStage | components/Learning.tsx:127 | k successes in a row give stage min(stage + k, 5) |
| Learning.FiveSuccessesMaster | components/Learning.tsx:125-134 | five successes master any card, after which it is reviewed every 30 days |
| Learning.EditNotes | components/Learning.tsx:64 | the notes with the id are edited and every other note is kept, position by position |
| Learning.UpdateNoteContent | components/Learning.tsx:60-66 | nothing changes without a selection; otherwise the selected note gets the new content, nothing else about it changes, and every other note is kept |
| Learning.RenameNote | components/Learning.tsx:330-334 | the open note gets the typed title, nothing else about it changes, and every other note is kept |
| Learning.AddNote | components/Learning.tsx:33-43 | a blank title changes nothing; otherwise an empty note with no cards, created today and filed under the category or `General`, goes to the front |
| Learning.DeleteNote | components/Learning.tsx:50-52 | exactly the notes with another id remain, as the order-keeping filter, and the list shrinks by the number of notes with the id |
| Learning.AddThenDeleteNote | components/Learning.tsx:33-52 | adding a note under a fresh id and deleting that id restores the knowledge base |
| Learning.AddCard | components/Learning.tsx:70-82 | refused without a selected note or with a blank question or answer; an accepted add appends a stage-0 card due today to every note with the selected id, and no other note and no other field changes |
| Learning.RemoveCard | components/Learning.tsx:86 | exactly the cards with another id remain, as the order-keeping filter, and the list shrinks by the number of cards with the id |
| Learning.DeleteCard | components/Learning.tsx:84-89 | nothing changes without a selection; the selected note's cards become `RemoveCard` of its cards, its other fields stay, and every other note is kept |
| Learning.AddThenDeleteCard | components/Learning.tsx:70-89 | adding a card under a fresh id and deleting it again restores the knowledge base |
| Learning.DueIn | components/Learning.tsx:97-102 | a note's queued cards are exactly its cards whose next review is at most today |
| Learning.AllCards | components/Learning.tsx:96-97 | the cards of every note, note by note |
| Learning.DueCardsFilterAll | components/Learning.tsx:93-104 | the queue is the due cards of the whole knowledge base, in note order and then card order |
| Learning.DueCardsMembers | components/Learning.tsx:93-104 | a card is queued exactly when some note holds it and it is due |
| Learning.DueCount | components/Learning.tsx:172 | the due counter equals the length of the queue startReview builds and never exceeds the card total |
| Learning.TotalCards | components/Learning.tsx:171 | the card total is the number of cards of all notes together |
| Learning.CollectDueIn | components/Learning.tsx:96-102 | the loop over one note's cards collects exactly DueIn: the cards whose review date is on or before today, in order |
| Learning.CollectDue | components/Learning.tsx:95-104 | the loop over the notes collects exactly DueCards, note by note |
| Learning.NewCardIsDue | components/Learning.tsx:72-78 | a card just added is in that day's queue |
| Learning.TextEditsKeepQueue | components/Learning.tsx:60-66 | content and title edits leave the queue as it was |
| Learning.FindCard | components/Learning.tsx:145 | `findIndex`: the first position with the id, or no position holds it |
| Learning.WriteCard | components/Learning.tsx:145-155 | the first card with the answered id is replaced by the answered card, every other position and field stays, and a note without that id is unchanged |
| Learning.WriteBack | components/Learning.tsx:144-156 | every note keeps its fields and its length, no card with another id changes, and each note holding the id holds the answered card |
| Learning.StagesStayInRange | components/Learning.tsx:125-156 | answers, additions and deletions keep every stage in 0..5 |
| Learning.LearningScreen.constructor | components/Learning.tsx:12-27 | the screen opens on the library with an empty, unflipped, incomplete session |
| Learning.LearningScreen.StartReview | components/Learning.tsx:93-116 | with nothing due nothing changes; otherwise the queue is DueCards, at card 0, unflipped and not complete; it starts exactly when the due counter is positive |
| Learning.LearningScreen.Reveal | components/Learning.tsx:212 | a click on the card flips it and changes nothing else |
| Learning.LearningScreen.ProcessReview | components/Learning.tsx:118-167 | the knowledge base becomes WriteBack of the answered card; the index advances unflipped, or the session completes on the last card |
| Learning.LearningScreen.BackToLibrary | components/Learning.tsx:203 | only the view changes |
| Learning.AnswerFold | components/Learning.tsx:143-158 | applying the write-backs of several answers, one after another, keeps every note as it was apart from its cards, and keeps each note's card count and every card id in its place |
| Learning.SessionAnswersEveryCard | components/Learning.tsx:118-167 | after a session over a queue with distinct ids, every note that held a queued card's id holds that card as answered (new stage and date, last reviewed today) |
| Learning.LearningScreen.AnswerAll | components/Learning.tsx:118-167 | revealing and answering each of N queued cards always ends complete on card N - 1, and the knowledge base is then the old one with every queued card's answer written back, in queue order |
| Learning.AddCardFromCopy | components/Learning.tsx:79-81 | refused as AddCard is; an accepted add turns every note with the copy's id into the copy with the new card appended, and no other note changes |
| Learning.CopyInSyncAgrees | components/Learning.tsx:79-81 | while the open note's copy matches the knowledge base, adding through it is AddCard |
| Learning.ReviewLostThroughCopy | components/Learning.tsx:79-81 | after a review, adding a card through the stale copy puts the reviewed card back to stage 0, while AddCard keeps stage 1 |
| App.Pad2IsTwoDigits | App.tsx:22 | below 100 the padding idiom is the two-digit rendering |
| App.DefaultScheduleSlots | App.tsx:21-25 | 18 slots whose times are two-digit hours 05..22 followed by `:00`, in increasing string order, with empty left and right entries |
| App.DefaultScheduleEnds | App.tsx:21-25 | the first slot is `05:00` and the last `22:00` |
| App.DefaultLog | App.tsx:12-31 | the default log is for the given day, with no mood, zero income and expense, the 18-slot schedule and three unchecked habits |
| App.WithDefaults | App.tsx:140-148 | a stored log keeps its date and gets the default schedule and habits where it lacks them |
| App.AppState.constructor | App.tsx:104-105 | a first start files today's default log and shows it |
| App.AppState.UpdateCurrentLog | App.tsx:126-132 | the log is shown and filed under its own date, and other dates keep their logs |
| App.AppState.DateChange | App.tsx:134-161 | a stored log is shown with defaults filled in; otherwise a fresh default log is filed and shown |
| App.AppState.CopyYesterdaySchedule | App.tsx:215-237 | copies the day before's schedule exactly when that day has one, and otherwise changes nothing |
| App.PlannerAddTask | App.tsx:163-176 | appends a TODO Q2 task on the planner's day whose week key matches that day |
| App.Toggled | App.tsx:180 | DONE becomes TODO and every other status becomes DONE |
| App.ToggleTask | App.tsx:178-182 | only the status of the tasks with the id changes |
| App.ToggleTwice | App.tsx:178-182 | toggling twice restores TODO and DONE tasks and turns DOING into TODO |
| App.UpdateTask | App.tsx:184-186 | the tasks with the updated id are replaced and all others kept |
| App.UpdateIdempotent | App.tsx:184-186 | updating twice with the same task is updating once |
| App.DeleteTask | App.tsx:188-190 | exactly the tasks with another id remain, and the list shrinks by the number of tasks with the id |
| App.FindTask | App.tsx:194 | the found task has the id and no earlier task has it; none is found only when no task has the id |
| App.MoveTaskToNextDay | App.tsx:192-211 | unchanged for a missing task or one without a day; otherwise the tasks with the id move to the next day with that day's week key and nothing else changes |
| App.WeeksStayInStep | App.tsx:163-211 | adding, toggling, moving and deleting keep every task's week key in step with its day |
| App.UpdateKeepsWeeksInStep | App.tsx:184-186 | an update whose task is in step keeps all tasks in step |
| App.AddedTaskOnDay | App.tsx:163-176 | a task added from the planner is listed on the planner's day |
| App.MovedTaskChangesDay | App.tsx:192-211 | a moved task is listed on the next day and no longer on its old day |
| App.DailyTasks | App.tsx:257 | the planner lists exactly the tasks assigned to the viewed date |
| App.DeepWorkMinutes | App.tsx:260-262 | deep work is whole hours, at most one per task of the day |
| App.DueFlashcardsCount | App.tsx:266-268 | the badge counts exactly the cards a review on the viewed date would queue, and never more than all cards |
| Tools.AddGoal | components/Tools.tsx:85-88 | a full list of 25 is unchanged; otherwise a goal outside the top five, with no progress and no milestones, is appended |
| Tools.SubmitGoal | components/Tools.tsx:424-441 | blank input or a full list of 25 adds nothing; otherwise one goal outside the top five, with the new id and the trimmed input as its non-empty title, is appended after the goals kept as they were |
| Tools.FindGoal | components/Tools.tsx:90 | the found goal has the id and no earlier goal has it; none is found only when no goal has the id |
| Tools.ToggleTop5 | components/Tools.tsx:89-97 | promotion is refused while five goals are top; otherwise only the goals with the id flip |
| Tools.DeleteGoal | components/Tools.tsx:640 | exactly the goals with another id remain, and the list shrinks by the number of goals with the id |
| Tools.ToggleIsPointUpdate | components/Tools.tsx:96 | with distinct ids, a toggle changes at most the one goal with that id |
| Tools.CapsKept | components/Tools.tsx:84-97 | adding, toggling and deleting keep at most 25 goals and at most 5 top goals |
| Tools.AddKeepsCaps | components/Tools.tsx:85-88 | adding a goal keeps at most 25 goals and at most 5 top goals; the new goal is not a top goal |
| Tools.ToggleKeepsCaps | components/Tools.tsx:89-97 | promoting or demoting a goal keeps at most 5 top goals when ids are distinct |
| Tools.DemotionAllowed | components/Tools.tsx:92-96 | leaving the top five is never refused |
| Tools.ProgressOf | components/Tools.tsx:162-164 | progress is in 0..100, and 0 with no milestones |
| Tools.ProgressEnds | components/Tools.tsx:139-141 | nothing done reads 0, everything done 100, otherwise the rounded percentage |
| Tools.FlipMilestone | components/Tools.tsx:150-152 | only the milestones with the id change their completion, and ids are kept |
| Tools.FlipTwice | components/Tools.tsx:150-152 | completing and reopening restores the list |
| Tools.WithMilestones | components/Tools.tsx:139-142 | the goal gets the new list and the progress it gives, in 0..100, and keeps its other fields |
| Tools.EditGoals | components/Tools.tsx:130-131 | the goals with the id are edited and all others kept |
| Tools.AddMilestone | components/Tools.tsx:125-145 | refused without a title, start or deadline; otherwise those goals get an open milestone at the end and the matching progress |
| Tools.ToggleMilestone | components/Tools.tsx:147-157 | those goals get the flipped list and the matching progress; other goals stay |
| Tools.DeleteMilestone | components/Tools.tsx:159-167 | those goals lose the milestone and get the matching progress, 0 when none is left |
| Tools.AddedMilestoneOpen | components/Tools.tsx:139-141 | a new milestone does not add to the completed count |
| Tools.AddThenDeleteMilestone | components/Tools.tsx:125-167 | deleting a milestone just added under a fresh id restores the milestone lists |
| Tools.CompletingRaisesCount | components/Tools.tsx:150-154 | completing an open milestone with a unique id raises the completed count by one |
| Tools.FirstOverdue | components/Tools.tsx:172 | the first open milestone whose deadline is before today, or none is |
| Tools.OverdueMilestone | components/Tools.tsx:169-173 | nothing without a milestone list; otherwise an overdue milestone of the list |
| Tools.MilestoneStatus | components/Tools.tsx:230-236 | completed, else overdue, else upcoming (start after today), else in progress, each as an if-and-only-if |
| Tools.BadgeMatchesList | components/Tools.tsx:169-173 | the overdue badge names a milestone listed as overdue, and no badge means none is |
| Tools.MonthBounds | components/Tools.tsx:178-179 | the month starts on its 1st and spans its length |
| Tools.MonthInfoMeaning | components/Tools.tsx:183-213 | NONE, COMPLETED, OVERDUE and DOING each hold exactly when the goal's milestones meeting the month are as named; PLANNED never happens |
| Tools.SpanStatusMeaning | components/Tools.tsx:183-213 | for any span of days, NONE, COMPLETED, OVERDUE and DOING each hold exactly when the milestones meeting the span are as named; PLANNED never happens |
| Tools.SpanStatus | components/Tools.tsx:183-213 | PLANNED never comes out, and no milestones means NONE |
| Tools.MonthInfo | components/Tools.tsx:176-213 | PLANNED never comes out, and a goal without milestones is NONE in every month |
| Tools.MonthsFollowEachOther | components/Tools.tsx:178-179 | each month starts the day after the previous one ends |
| Tools.WeekRange | components/Tools.tsx:42-47 | the displayed range is the Monday of the viewed day's week through the Sunday after it |
| Tools.WeekRangeIsKeyWeek | components/Tools.tsx:42-58 | a day has the viewed week's key exactly when it falls in the displayed range |
| Tools.WeeklyTasks | components/Tools.tsx:57-58 | the board lists exactly the tasks tagged with the viewed week's key |
| Tools.AddTask | components/Tools.tsx:99-109 | appends a TODO, SHOULD task in the quadrant for the viewed week and no day |
| Tools.BoardAddKeepsWeeksInStep | components/Tools.tsx:99-109 | a board task keeps every task's week key in step with its day |
| Tools.PlannerTaskOnBoard | components/Tools.tsx:57-58 | a planner task shows on the board exactly while the displayed week contains its day |
| Tools.Board.constructor | components/Tools.tsx:19-28 | the board opens on today with every input empty |
| Tools.Board.ChangeWeek | components/Tools.tsx:51-55 | the view moves by seven days per step, the displayed Monday moves with it, and the inputs stay |
| Tools.Board.InputChange | components/Tools.tsx:120-122 | only that quadrant's input changes |
| Tools.Board.QuickAdd | components/Tools.tsx:112-118 | blank input changes nothing; otherwise a SAND task of the trimmed text joins the viewed week's list and only that input clears |
| Planner.UpdateSchedule | components/DailyPlanner.tsx:65-69 | only the given column of the given slot changes, and the rest of the log stays |
| Planner.ScheduleEdits | components/DailyPlanner.tsx:65-69 | the last text typed into a column wins, and edits to different columns commute |
| Planner.SortedTasksOrder | components/DailyPlanner.tsx:72-76 | every DONE task comes after every open one |
| Planner.SortedTasks | components/DailyPlanner.tsx:72-76 | the ordering is a permutation of the tasks |
| Planner.SortedTasksStable | components/DailyPlanner.tsx:72-76 | the open tasks and the DONE tasks each keep their relative order |
| Planner.SortedTasksUnique | components/DailyPlanner.tsx:72-76 | any done-last, order-keeping arrangement is the sorted list |
| Planner.DoneWithinTotal | components/DailyPlanner.tsx:79-80 | the done count never exceeds the total, and sorting changes neither |
| Planner.CycleSize | components/DailyPlanner.tsx:127-129 | every press changes the size |
| Planner.CycleThrice | components/DailyPlanner.tsx:126-132 | three presses restore every size, and fewer never do |
| Planner.CycleTaskSize | components/DailyPlanner.tsx:126-132 | only the tasks with the id change, to that task with the next size |
| Planner.AddHabit | components/DailyPlanner.tsx:135-145 | a blank name changes nothing; otherwise an unchecked habit with the trimmed name is appended to the list, or to none |
| Planner.DeleteHabit | components/DailyPlanner.tsx:147-151 | only the habits change, and they do not grow |
| Planner.DeleteHabitMembers | components/DailyPlanner.tsx:147-151 | exactly the habits with another id remain |
| Planner.AddThenDeleteHabit | components/DailyPlanner.tsx:135-151 | deleting a habit just added under a fresh id restores the list |
| Planner.RenameHabit | components/DailyPlanner.tsx:158-168 | with no habit being edited nothing changes; otherwise only the edited habit's name changes |
| Planner.ToggleHabit | components/DailyPlanner.tsx:698-700 | only the habit with the id flips, and a log without habits stays as it is |
| Planner.ToggleHabitTwice | components/DailyPlanner.tsx:698-700 | ticking twice restores the log |
| Planner.HabitEditsKeepIds | components/DailyPlanner.tsx:158-168 | renaming and ticking keep every habit's id, and renaming keeps every tick |
| Planner.FirstDayOfMonth | components/DailyPlanner.tsx:180-184 | the Monday-based weekday of the month's first day, in 0..6 |
| Planner.MondayBased | components/DailyPlanner.tsx:182-183 | `day === 0 ? 6 : day - 1` turns `getDay` into the Monday-based weekday |
| Planner.GridColumnIsWeekday | components/DailyPlanner.tsx:186-199 | day d of the month lands in the grid column of its weekday |
| Planner.GridColumnsAreWeekdays | components/DailyPlanner.tsx:186-221 | in the month's grid every day cell sits in the column of its weekday |
| Planner.FillGrid | components/DailyPlanner.tsx:192-220 | the two loops give the blanks, then the days 1..count in order |
| Planner.PlannerScreen.constructor | components/DailyPlanner.tsx:36-44 | the screen opens on the log's day with nothing being edited |
| Planner.PlannerScreen.StartEditingHabit | components/DailyPlanner.tsx:153-156 | the habit and its name are being edited, and nothing else changes |
| Planner.PlannerScreen.SaveEditingHabit | components/DailyPlanner.tsx:158-168 | returns RenameHabit and ends the edit; with none being edited nothing changes |
| Planner.PlannerScreen.EditTask | components/DailyPlanner.tsx:511 | the task is opened in the editor |
| Planner.PlannerScreen.SetUrgent | components/DailyPlanner.tsx:846-857 | urgency becomes the checkbox, importance and all other fields stay |
| Planner.PlannerScreen.SetImportant | components/DailyPlanner.tsx:863-873 | importance becomes the checkbox, urgency and all other fields stay |
| Planner.PlannerScreen.SaveTask | components/DailyPlanner.tsx:119-124 | the edited task replaces its id's tasks and the editor closes; without one nothing changes |
| Planner.PlannerScreen.DeleteClick | components/DailyPlanner.tsx:92-100 | the tasks with the id go, and the editor closes if it showed one of them |
| Planner.PlannerScreen.SyncViewDate | components/DailyPlanner.tsx:172-177 | the calendar follows the log's date |
| Planner.PlannerScreen.ChangeMonth | components/DailyPlanner.tsx:224-227 | the calendar shows `new Date(year, month + offset, 1)` |
| Planner.PlannerScreen.RenderCalendar | components/DailyPlanner.tsx:186-222 | the grid of the viewed month: a blank per weekday before the 1st, then the days of the month in order |
| Planner.FirstOfMonth | components/DailyPlanner.tsx:225 | `new Date(y, m, 1)` for any month offset is the 1st of month y × 12 + m |
| Dashboard.CompletionRate | components/Dashboard.tsx:15-17 | 0 with no tasks, otherwise the rounded percentage of DONE tasks, in 0..100 |
| Dashboard.CompletionRateEnds | components/Dashboard.tsx:17 | nothing done reads 0%, everything done 100% |
| Dashboard.SizeCountsSum | components/Dashboard.tsx:19-21 | the rock, pebble and sand counts add up to the number of tasks |
| Dashboard.QuadrantCountsSum | components/Dashboard.tsx:31-36 | the four quadrant counts add up to the number of tasks |
| Dashboard.DeepWorkSplit | components/Dashboard.tsx:49-50 | hours × 60 + minutes is the total, with minutes below 60 |
| Dashboard.DeepWorkSplitUnique | components/Dashboard.tsx:49-50 | that split is the only one with fewer than 60 minutes left over |
| Dashboard.DeepWorkWholeHours | components/Dashboard.tsx:49-50 | the app's deep work shows one hour per DONE Q2 task of the day and no minutes |
| Pomodoro.Step | components/Pomodoro.tsx:13-39 | running with time left loses one second; at zero the timer stops on the other period in full; otherwise nothing changes; a valid state stays valid |
| Pomodoro.CountsDown | components/Pomodoro.tsx:16-19 | k ticks of a running timer take off exactly k seconds while time is left |
| Pomodoro.FocusThenBreak | components/Pomodoro.tsx:16-33 | a full focus period runs 1500 ticks, and the next tick stops on a full 300-second break |
| Pomodoro.Timer.constructor | components/Pomodoro.tsx:5-7 | the timer opens stopped on a full focus period |
| Pomodoro.Timer.Tick | components/Pomodoro.tsx:13-39 | the new state is Step of the old one |
| Pomodoro.Timer.Toggle | components/Pomodoro.tsx:41 | only the running flag flips |
| Pomodoro.Timer.Reset | components/Pomodoro.tsx:43-46 | stopped, with the current period in full |
| Pomodoro.Timer.Select | components/Pomodoro.tsx:77-88 | that period, in full, stopped |
| Pomodoro.FormatTimeReadsBack | components/Pomodoro.tsx:48-52 | the minutes before the colon and the two seconds digits below 60 after it read back as the seconds |
| Pomodoro.FormatTime | components/Pomodoro.tsx:48-52 | at least five characters with the colon third from the end, exactly five below 100 minutes |
| Pomodoro.FormatTimeInjective | components/Pomodoro.tsx:48-52 | different times show differently |

## Left out

- Persistence is not modelled: localStorage loading and saving, manual save and reset (App.tsx:76-122, 240-254). The lists live in memory.
- The server, the database, the fetch calls and the login form are not modelled (server.js, db.js, services/api.ts, components/Login.tsx).
- Time zones are not modelled. The `toISOString` UTC day keys, the `getTimezoneOffset` shifts, `new Date("YYYY-MM-DD")` parsed as UTC and compared with local midnight, and local-time `new Date(y, m, d)` are all one calendar on day numbers.
- Years before 100 are not modelled: `Date.UTC` maps them to 1900 + year. `YYYY-MM-DD` keys and week-key text are stated for years 0..9999.
- The current clock (`new Date()`, `todayStr`, `new Date().getFullYear()`) is a "today" or year parameter.
- `Date.now()` ids are parameters. Ids made within the same millisecond could collide, and that is not modelled.
- Percentages.Percent: integer round half up of 100 × done / total. `Math.round` of the floating-point product can differ at exact .5 cases.
- Tools.ToggleMilestone: for a goal with no milestones the model gives progress 0. The source divides 0 by 0 and stores NaN. Only an unknown milestone id reaches that case.
- Tools.CapsKept: assumes goal ids are distinct. With duplicate ids a single promotion flips several goals and can exceed five.
- Tools.ToggleKeepsCaps: assumes goal ids are distinct, for the same reason as Tools.CapsKept.
- Confirmation prompts and alerts (`window.confirm`, `alert`) are decisions already made by the caller. Each modelled handler is the confirmed path.
- Rendering is not modelled: markup, colours, tooltips, charts, the print handler, the random quote, the click-outside listener and the week label text. The month grid's tooltip and current-month highlight and the calendar's selected-day and today highlight are rendering too.
- The pomodoro's `setInterval` and audio plumbing are not modelled. Only the state change each effect run makes is modelled, as `Step`.
- `getWeekKey` in components/Tools.tsx:31-38 is a copy of App.tsx:60-68, so both use `Calendar.IsoWeekKey`. The Tools task editor's update and delete reuse `App.UpdateTask` and `App.DeleteTask`.
- App.AppState.constructor models a first start with nothing saved, when the history holds only today's default log.
- Planner.UpdateSchedule requires the log to have a schedule and the index to be in range. The source would fail on a log without one.
- The Learning screen's search box, category filter and note editor toggles are not modelled. They only choose what is shown.
- The `selectedNote` copy is modelled only for adding a card, as `Learning.AddCardFromCopy` (see Findings). Three other handlers also write the stale copy back over the note: deleteFlashcard (components/Learning.tsx:85-90), handleUpdateNoteContent (components/Learning.tsx:60-66) and the title field (components/Learning.tsx:330-334). The model applies these three to the knowledge-base entry with the selected id (`Learning.DeleteCard`, `Learning.UpdateNoteContent`, `Learning.RenameNote`). It therefore does not capture the reset they share: open n1 holding c1 and c2, review c1, then delete c2 or edit the content or title, and c1 is back at stage 0.

## Findings

| source | as written | input that shows it | evidently intended | confidence | as-written member | corrected member |
|---|---|---|---|---|---|---|
| components/Learning.tsx:79-81 | addFlashcard appends the new card to the screen's `selectedNote` copy and writes that copy over the note. processReview never refreshes the copy. deleteFlashcard, handleUpdateNoteContent and the title field write the same stale copy back. | Open note n1 holding card c1 at stage 0. Review c1 successfully (stage 1 in the knowledge base). Back in the library, add card c2 to n1: c1 is back at stage 0. | Adding a card keeps every existing card as it is in the knowledge base, including review results. | not executed | Learning.AddCardFromCopy | Learning.AddCard |

# OneCard storage core in Dafny

OneCard is a single-user "one index card per day" task tracker. Each day has a card
holding one big task and up to three small tasks. A card can be cleared ("destroyed")
but is never deleted. The server keeps two tables, cards and tasks, and computes a
day streak and a weekly completion rate over them.

This project models:

- **Schema** (`schema.dfy`): the card and task rows, their defaults, the insert shapes
  without `id`/`createdAt`, the foreign key and its cascade.
- **Queries** (`queries.dfy`): getTodayCard, getCardById and getCardsByDateRange as pure
  functions over the two tables. Each card is joined with its tasks sorted by `order`.
  The sort is in `sorting.dfy`.
- **Storage** (`storage.dfy`): class `DatabaseStorage`, whose fields are the tables. It has
  createCard, destroyCard, createTask, updateTask and deleteTask as state-changing methods.
  getStreakStats and getWeeklyStats are loops proved against the specifications in
  `streak.dfy` and `weekly.dfy`.
- **DailyCard** (`dailycard.dfy`): the browser-side task sheet (one big task, three small
  tasks), its handlers and its counts.
- **History** (`history.dfy`): the sample history list and `groupByWeek`.

Time is integer milliseconds. A day number is the timestamp floor-divided by 86 400 000
(`calendar.dfy`). Row ids are natural numbers handed out by a counter. The counter stands
for the database's UUID generator: every new id is fresh.

## Model

| member | source | states |
|---|---|---|
| Calendar.DayOf | server/storage.ts:139-144 | the day number is the number of whole days before the timestamp: day × length-of-day ≤ t < (day + 1) × length-of-day |
| Calendar.DayStart | server/storage.ts:25-26 | midnight of a timestamp's day is a whole multiple of the day length, at most the timestamp, less than a day before it, and on the same day |
| Schema.NewCard | shared/schema.ts:6-11 | an inserted card gets the generated id and `createdAt`; a missing `date` defaults to now and a missing `destroyed` to false |
| Schema.NewTask | shared/schema.ts:13-21 | an inserted task keeps `cardId` and `text`; missing `completed`/`isBigTask` default to false and `order` to 0 |
| Schema.ApplyPatch | server/storage.ts:106-111 | a patch overwrites exactly the fields it carries; id, cardId and createdAt are kept |
| Schema.DeleteCardCascade | shared/schema.ts:15 | deleting a card removes exactly that card and the tasks referring to it; references still resolve afterwards |
| Sorting.SortBy | server/storage.ts:48 | the result is a permutation of the rows, in ascending key order |
| Queries.TasksOfCard | server/storage.ts:44-47 | exactly the task rows whose cardId is the card's id, with their multiplicities |
| Queries.TasksOf | server/storage.ts:44-48 | the joined tasks are exactly the card's task rows, sorted by ascending `order` |
| Queries.Join | server/storage.ts:78-87 | every card of the list, in the same order, carries its joined tasks |
| Queries.CardsInRange | server/storage.ts:67-75 | exactly the card rows with start <= date <= end, destroyed ones included |
| Queries.CardsByDateRange | server/storage.ts:66-90 | exactly the cards dated in [start, end] (destroyed included), latest first, each with its tasks |
| Queries.FirstTodayCard | server/storage.ts:30-40 | none exactly when no live card is dated in [today 00:00, tomorrow 00:00]; otherwise such a card |
| Queries.TodayCard | server/storage.ts:24-51 | none exactly when no live card is dated between today's and tomorrow's midnight, both included; otherwise a live card in that window with its tasks |
| Queries.FirstCardWithId | server/storage.ts:54 | none exactly when no card has the id; otherwise a card with that id |
| Queries.CardById | server/storage.ts:53-64 | none exactly for an unknown id; otherwise the card with that id and its tasks |
| Queries.CreatedTaskIsFetched | server/storage.ts:101-104 | a task created for an existing card appears, with identical fields, among that card's tasks from getCardById |
| Queries.TodayIncludesNextMidnight | server/storage.ts:27-36 | a live card dated exactly at tomorrow's midnight counts as today's card |
| Streak.Step | server/storage.ts:138-158 | one completed card sets previousDate to its day, never lowers bestStreak, and never loses the length of a run already counted |
| Streak.Fold | server/storage.ts:130-159 | after the walk previousDate is empty exactly when no day was walked, and otherwise is the LAST day walked (the oldest, for days latest first) |
| Streak.Finish | server/storage.ts:161-178 | bestStreak covers the open run and all earlier runs; currentStreak is at most bestStreak; it is 0 unless previousDate is today or yesterday |
| Streak.Stats | server/storage.ts:119-181 | currentStreak ≤ bestStreak; no completed days give currentStreak 0; a nonzero currentStreak means the last day walked is today or yesterday |
| Streak.FoldKeepsInv | server/storage.ts:130-159 | for days latest first, after each completed day the open run starts at the oldest day seen and is maximal, and bestStreak is achieved and bounds every run above it |
| Streak.StatsMeaning | server/storage.ts:119-181 | bestStreak is the longest run of consecutive completed days; currentStreak <= bestStreak; empty history gives {0,0}; currentStreak is the maximal run starting at the oldest completed day if that day is today or yesterday, else 0 |
| Streak.ThreeDayScenario | server/storage.ts:157-175 | completed days D, D-1, D-2: best is 3; as written the current streak is 0 even when D is yesterday (intended 3); it is 0 when D is 3+ days ago |
| Streak.LeadingRunIsMaximal | server/storage.ts:163-178 | the corrected run length counts the maximal run of consecutive days ending at the latest completed day |
| Streak.IntendedCurrentStreakMeaning | server/storage.ts:163-178 | corrected current streak: the maximal run ending at the latest completed day when that day is today or yesterday, else 0 |
| Weekly.WeekStart | server/storage.ts:184-186 | the window opens at the midnight of (now − 7 days): shift first, then truncate; it is a whole multiple of the day length and seven day numbers back |
| Weekly.CompletionRate | server/storage.ts:200 | the rate is 0 without tasks and at most 100 when completed ≤ total |
| Weekly.CompletionRateRounds | server/storage.ts:200 | the rate is 100·completed/total rounded to the nearest integer, halves up |
| Weekly.CompletionRateBounds | server/storage.ts:200 | with completed <= total the rate is in [0,100]; 0 without tasks; 100 when all are completed |
| Weekly.CompletionRateExtremes | server/storage.ts:200 | with tasks, the rate is 0 exactly when under 1 in 200 is completed and 100 exactly when at least 199 in 200 are |
| Weekly.HalfDoneWeek | server/storage.ts:190-200 | any week of four cards with four tasks each and eight completed tasks has 16 tasks in total and a rate of 50 |
| Weekly.CountCompletedBounds | server/storage.ts:194-197 | completed tasks of a card are at most its tasks, and equal exactly when all are completed |
| Weekly.CompletedTasksBounded | server/storage.ts:193-198 | over all cards, completed tasks never exceed total tasks |
| Storage.DestroyRows | server/storage.ts:97-99 | only `destroyed` changes, set exactly on the rows with the id; unknown id changes nothing; no flag goes back to false |
| Storage.DestroyIdempotent | server/storage.ts:97-99 | destroying twice equals destroying once |
| Storage.DestroyedOnlyGrowsTransitive | server/storage.ts:92-117 | the false-to-true-only rule for `destroyed` holds across any sequence of operations |
| Storage.DestroyedCardNotToday | server/storage.ts:33-38 | after a card is destroyed, getTodayCard never returns it |
| Storage.UpdateRows | server/storage.ts:106-111 | only task rows with the id change, each by the patch; all other rows are identical |
| Storage.RemoveRows | server/storage.ts:115-117 | exactly the task rows with the id disappear; every other row keeps its multiplicity |
| Storage.RemoveKeepsUnique | server/storage.ts:115-117 | deleting task rows keeps task ids unique |
| Storage.FirstTaskWithId | server/storage.ts:107-112 | the returned row is one with the id; none exactly when no row has it |
| Storage.CompletedDaysMembers | server/storage.ts:130-140 | the days collected by the walk are exactly the days of cards with a completed task |
| Storage.CompletedDaysLatestFirst | server/storage.ts:120-140 | cards sorted latest first give completed days in non-increasing order |
| Storage.StreakMeaning | server/storage.ts:119-181 | the streak result over the sorted cards has the longest-run and oldest-run meaning, stated on the card table |
| Storage.DatabaseStorage.constructor | server/storage.ts:206 | the store starts with empty tables and its invariant |
| Storage.DatabaseStorage.CreateCard | server/storage.ts:92-95 | appends one card with a fresh id and the schema defaults; tasks unchanged; invariant kept |
| Storage.DatabaseStorage.DestroyCard | server/storage.ts:97-99 | cards become DestroyRows of the old cards; tasks unchanged; invariant kept |
| Storage.DatabaseStorage.CreateTask | server/storage.ts:101-104 | appends one task with a fresh id exactly when its card exists, else fails with a foreign-key error and changes nothing |
| Storage.DatabaseStorage.UpdateTask | server/storage.ts:106-113 | tasks become UpdateRows of the old tasks; returns the patched row, or none when no row has the id; cards unchanged |
| Storage.DatabaseStorage.DeleteTask | server/storage.ts:115-117 | tasks become RemoveRows of the old tasks; cards unchanged; invariant kept |
| Storage.DatabaseStorage.GetStreakStats | server/storage.ts:119-181 | bestStreak is the longest run of days with a completed task; currentStreak <= bestStreak; {0,0} without completed tasks; currentStreak follows the oldest completed day |
| Storage.DatabaseStorage.GetWeeklyStats | server/storage.ts:183-203 | counts the completed tasks of the window's cards, which are at most all their tasks; the rate is their rounded percentage, at most 100 |
| Storage.CountTasks | server/storage.ts:190-198 | the nested walk counts all tasks and completed tasks of the cards |
| DailyCard.InitialTasks | client/src/components/DailyCard.tsx:20-29 | four slots with distinct ids, all blank and unchecked |
| DailyCard.SetCompleted | client/src/components/DailyCard.tsx:43-47 | only the slot with the id gets the new checkbox; length, order, ids and texts are kept; an unknown id changes nothing |
| DailyCard.SetText | client/src/components/DailyCard.tsx:115-117 | only the slot with the id gets the new text; everything else is kept; an unknown id changes nothing |
| DailyCard.CountsBounded | client/src/components/DailyCard.tsx:54-55 | completed count <= total count <= number of slots |
| DailyCard.BlankSlotNotCounted | client/src/components/DailyCard.tsx:54-55 | toggling a slot with empty text changes neither count |
| DailyCard.CanDestroy | client/src/components/DailyCard.tsx:49-52 | the card can be cleared exactly in the hours 18 to 23 |
| DailyCard.DailyCard.constructor | client/src/components/DailyCard.tsx:20-29 | big task "1" and small tasks "2" to "4", all blank and unchecked |
| DailyCard.DailyCard.CompletedCount | client/src/components/DailyCard.tsx:54 | the completed count is at most the total count, which is at most 4 |
| DailyCard.DailyCard.TotalCount | client/src/components/DailyCard.tsx:55 | the total count is at most 4 |
| DailyCard.DailyCard.HandleBigTaskChange | client/src/components/DailyCard.tsx:39-41 | only the big task's checkbox changes; its id and text are kept |
| DailyCard.DailyCard.EditBigTaskText | client/src/components/DailyCard.tsx:83 | only the big task's text changes |
| DailyCard.DailyCard.HandleSmallTaskChange | client/src/components/DailyCard.tsx:43-47 | small tasks become SetCompleted of the old ones; the big task is unchanged |
| DailyCard.DailyCard.EditSmallTaskText | client/src/components/DailyCard.tsx:115-117 | small tasks become SetText of the old ones; the big task is unchanged |
| History.WeekAgo | client/src/pages/history.tsx:28-29 | the cut-off is seven day numbers back at the same time of day, with no truncation to midnight |
| History.ThisWeek | client/src/pages/history.tsx:31-37 | exactly the items dated at or after weekAgo |
| History.LastWeek | client/src/pages/history.tsx:31-37 | exactly the items dated before weekAgo |
| History.SplitInterleaves | client/src/pages/history.tsx:31-37 | the input is an interleaving of the two groups, so each keeps the input order |
| History.InterleavesPartition | client/src/pages/history.tsx:24-40 | an interleaving puts every element in exactly one part, and the lengths add up |
| History.GroupByWeek | client/src/pages/history.tsx:24-40 | thisWeek holds the items at or after today minus 7 days and lastWeek the rest; each item lands in exactly one group, in input order |
| History.SampleTasks | client/src/pages/history.tsx:10-19 | four tasks, exactly one of them the big task |
| History.HistoryData | client/src/pages/history.tsx:6-22 | seven items dated 1 to 7 days before today, each with four tasks, exactly one big |
| History.HistoryDataAllThisWeek | client/src/pages/history.tsx:6-32 | every sample item lands in thisWeek, since the oldest is dated exactly weekAgo |

## Left out

- server/routes.ts is not part of this model. This covers the HTTP handlers, JSON bodies, status codes, request parsing and the default 30-day history window.
- Drizzle and Postgres mechanics are not modelled: async calls, `Promise.all`, `returning()`. Each method runs as one sequential step, so interleavings between the per-card task reads are not modelled.
- The row picked by `limit(1)` (and the first row of an unordered select) is left to the database. The model takes the first matching row in table order.
- Rows that tie on the sort key (same `date`, same `order`) come back in an unspecified order. The model keeps their table order. The streak result does not depend on this order.
- Time zones and daylight saving are not modelled. Midnight is the timestamp floored to a multiple of 86 400 000 ms, "seven days ago" is exactly 7 × 86 400 000 ms earlier, and `Math.floor` of a millisecond difference between two midnights is the difference of day numbers.
- Postgres timestamp precision below a millisecond is not modelled.
- Weekly.CompletionRateRounds: `Math.round` is applied to the exact ratio, not to the floating-point value `completed / total * 100`. Floating-point rounding error is not modelled.
- Ids are natural numbers from a counter, not random UUID strings. The model captures only that each new id is fresh.
- Storage.DatabaseStorage.UpdateTask: a patch may change only `text`, `completed`, `isBigTask` and `order`. The model does not cover a patch that rewrites `id`, `cardId` or `createdAt`, nor the database's refusal of an empty patch.
- The 32-bit range of the `order` column is not modelled. `order` is an unbounded integer.
- No operation of the store deletes a card. The cascade is modelled only as the pure function Schema.DeleteCardCascade.
- Storage.DatabaseStorage.GetStreakStats keeps the source's as-written current streak (see Findings). The corrected definition is Streak.IntendedCurrentStreak.
- A weekly rate of 0 is documented as meaning the window holds no tasks. The code also returns 0 when fewer than 1 in 200 tasks are completed, including when none are. The model follows the code (Weekly.CompletionRateExtremes).
- The weekly window is documented as the seven days up to today. The code uses [00:00 seven days ago, now]. The model follows the code.
- DailyCard.CanDestroy takes the current hour as a parameter, because the clock is not modelled.
- Rendering is not modelled: date formatting, animation, confetti and timers, the progress, streak, calendar, history-card and checkbox components, navigation, the mock progress page and the component demo files.
- DailyCard's `date` and `onDestroy` props are not modelled; they only feed display and the page callback.

## Findings

| source | as written | input that shows it | evidently intended | confidence | as-written member | corrected member |
|---|---|---|---|---|---|---|
| server/storage.ts:157-178 | `previousDate` is overwritten for every completed card while walking latest first, so after the loop it is the OLDEST completed day. `tempStreak` is the oldest run. "Is today part of the streak" is tested on that run. | completed cards yesterday, 2 days ago and 3 days ago, nothing else: current streak 0 | the run ending at the latest completed day counts when that day is today or yesterday, so the current streak is 3 | high that the behaviour follows from the code; medium that it is unintended; not executed | Streak.ThreeDayScenario | Streak.IntendedCurrentStreakMeaning |

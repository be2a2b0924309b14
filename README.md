# Habit tracker core in Dafny

This project models the logic of a small offline habit tracker, in three layers.

- **Recurrence rules and status engine** (`src/lib/utils.ts`, module `Utils`).
  - Decides whether a habit is due on a day: daily, weekly and monthly habits are always due once created, specific-day habits on listed weekdays, interval habits every N days from creation.
  - Computes whether a habit is overdue today, and its current streak by walking back one day at a time.
- **Persistence store** (`src/lib/database.ts`, module `Database`).
  - The IndexedDB wrapper is a class `HabitDatabase` with an `initialized` flag, a habits table and an entries table, each keyed by `id`.
  - The unique `habitId_date` index is an explicit map from `(habitId, date)` to entry id. `Valid()` states that the index mirrors the entries table exactly, so no two entries share a habit and a day.
  - `add` fails on an existing key and `put` upserts. An entry `put` that would break the unique index fails with a constraint error. Deleting a habit cascades to its entries.
- **Aggregation service** (`src/lib/habitService.ts`, module `Service`).
  - A class `HabitService` publishes today's list (`habits`) and a loading flag (`isLoading`).
  - The refresh lists the active habits due today with their entry for today, overdue flag and streak. It sorts them overdue-first, then by creation.
  - Completing and uncompleting are read-modify-upsert operations on today's entry, each followed by a refresh.
- **Record shapes** (`src/lib/types.ts`, module `Types`): datatypes, with optional fields as `Option`.

## Conventions

- A date is an integer day number: day 0 is 1970-01-01, a Thursday.
  - `Date.getDay()` is `(day + 4) % 7`, and `addDays` is addition.
  - A `YYYY-MM-DD` entry date is the day number it names.
  - A habit's `createdAt` is the day it was created.
- "Today", the completion timestamp `now` and the fresh entry id are parameters instead of the clock and `crypto.randomUUID`.
- Whether the browser lets the database open is the parameter `engineAvailable`.
- A rejected promise is an `Outcome.Fail` / `Result.Err`:
  - `NotInitialized` for "Database not initialized";
  - `ConstraintError` for a key or unique-index clash;
  - `StorageUnavailable` for a failed open.
- The source spreads the habit's fields into `HabitWithEntries`; the model nests the habit as a field `habit`.
- The streak is stated by a recursive specification function, `Utils.Streak`, over a day-to-done predicate.
  - `Utils.Completion(entries)` reads that predicate off an entry list: the first entry dated that day decides, as `find` does.
  - `Service.StoreCompletion` reads the same predicate off the store through the unique index.
  - `Service.HistoryStatusIsStoreStatus` proves that the two give the same overdue flag and streak.

## Model

| member | source | states |
|---|---|---|
| Utils.JsDay | src/lib/utils.ts:19 | the platform weekday of a day number lies in 0..6 |
| Utils.GetWeekDayNumber | src/lib/utils.ts:28-31 | the index is in 0..6, equals `(day + 3) % 7`, Monday maps to 0 and Sunday to 6 |
| Utils.AddDaysLaws | src/lib/utils.ts:11-15 | adding 0 days is the identity and adding a then b days is adding a + b |
| Utils.AddDays | src/lib/utils.ts:11-15 | moving by n days goes forward iff n is positive and back iff n is negative (month and year rollover vanish on day numbers) |
| Utils.WeekDayAfter | src/lib/utils.ts:11-15 | moving n days forward moves the Monday-based weekday n steps round the week |
| Utils.GetStartOfWeek | src/lib/utils.ts:17-22 | the result is a Monday, no later than the day and at most 6 days before it, i.e. the day minus its weekday index |
| Utils.IntervalLength | src/lib/utils.ts:52 | `value \|\| 1` is never zero, so the modulus is defined |
| Utils.IsHabitDueToday | src/lib/utils.ts:33-66 | a habit is never due before the day it was created, for every frequency variant |
| Utils.DueRules | src/lib/utils.ts:43-61 | daily, weekly and monthly habits are due every day from creation; a specific-days habit is due exactly when the weekday is listed, never when `days` is absent; an interval habit is due on its creation day |
| Utils.DivisibleByPeriod | src/lib/utils.ts:50-52 | the remainder test `% (value \|\| 1) === 0` holds exactly for multiples of the period, including for a negative `value` |
| Utils.IntervalDueExactly | src/lib/utils.ts:33-52 | an interval habit is due on a day iff that day is the creation day plus a whole number of periods |
| Utils.SpecificDaysRepeatWeekly | src/lib/utils.ts:46-48 | a specific-days habit due on a day is due again seven days later |
| Utils.FindEntry | src/lib/utils.ts:96 | `find` returns a member satisfying the predicate, the first such one, and nothing exactly when no member satisfies it |
| Utils.EntryOn | src/lib/utils.ts:81 | the entry found for a date is in the list and has that date; none is found iff no entry has that date |
| Utils.CompletedOn | src/lib/utils.ts:96-99 | a day counts as done only if some entry of that day is completed, and it does when every entry of that day is completed (the first entry of the day decides) |
| Utils.Streak | src/lib/utils.ts:91-107 | the streak walk is bounded by the number of days from creation to the reference day, inclusive |
| Utils.IsOverdue | src/lib/utils.ts:80-84 | overdue means due on the reference day and not completed; it never holds before creation, and an overdue habit has streak 0 because the walk breaks on the reference day |
| Utils.StreakCountsDueDays | src/lib/utils.ts:91-107 | the streak is the number of due days after the point where the walk stops, which is a due day not done or the day before creation; every due day after it is done |
| Utils.StreakCongruent | src/lib/utils.ts:94-107 | the streak depends only on which days are done |
| Utils.GetHabitStatus | src/lib/utils.ts:68-116 | returns overdue iff due today and today's first entry is not completed, `missedDays` 0, and a streak equal to `Streak`; overdue forces streak 0, and the streak is bounded |
| Utils.WalkStreak | src/lib/utils.ts:91-107 | the backward loop counts exactly `Streak`: due days with a completed entry, skipping days not due, up to the first due day not done |
| Utils.DailyScenario | src/lib/utils.ts:91-107 | a daily habit done five days, missed one and done today has streak 1 and is not overdue |
| Utils.SpecificDaysScenario | src/lib/utils.ts:46-48 | a Monday/Wednesday/Friday habit is neither due nor overdue on a Tuesday |
| Database.IndexMakesHabitDateUnique | src/lib/database.ts:32 | while the unique index mirrors the entries, no two entries share a habit and a day |
| Database.StoreEntryOn | src/lib/database.ts:134-146 | the `habitId_date` index lookup finds an entry iff one with that habit and day is stored, and then it is that entry |
| Database.PutConflicts | src/lib/database.ts:121-132 | an entry `put` clashes with the unique index iff another stored entry has the same habit and day |
| Database.PutIndex | src/lib/database.ts:121-132 | after a `put` the index files the entry's habit and day under its id, drops the replaced record's key, and keeps every other key with its id |
| Database.PutKeepsIndex | src/lib/database.ts:121-132 | an accepted `put` keeps both tables keyed and the index exact; its key now finds the new entry, and every other habit-day lookup is unchanged except the one the replaced record held |
| Database.EntriesWithout | src/lib/database.ts:65-89 | after the cascade every entry of another habit remains unchanged and none of the deleted habit does |
| Database.DeleteKeepsIndex | src/lib/database.ts:65-89 | the cascading delete keeps the index exact and leaves no entry of the habit; every other habit's lookups are unchanged |
| Database.RemovingHabitEntries | src/lib/database.ts:80-86 | deleting, one by one, the entries the `habitId` index lists for the habit gives the cascading delete |
| Database.HabitDatabase.constructor | src/lib/database.ts:3-6 | a new store is empty, consistent and not initialized |
| Database.HabitDatabase.Init | src/lib/database.ts:8-36 | opening succeeds iff the engine lets it; success marks the store initialized, and failure rejects with the storage error |
| Database.HabitDatabase.AddHabit | src/lib/database.ts:39-50 | fails if not initialized or if the id is taken; otherwise adds exactly this habit, and entries are untouched |
| Database.HabitDatabase.UpdateHabit | src/lib/database.ts:52-63 | fails if not initialized; otherwise the habit is stored under its id, replacing or inserting, and a following read of that id returns it |
| Database.HabitDatabase.SelectEntries | src/lib/database.ts:148-174 | the loop returns, once each, exactly the stored entries satisfying the filter |
| Database.HabitDatabase.DeleteHabit | src/lib/database.ts:65-89 | fails if not initialized; otherwise removes the habit and exactly the entries with its `habitId`, together with their index keys |
| Database.HabitDatabase.GetActiveHabits | src/lib/database.ts:91-105 | fails iff not initialized; otherwise returns, once each, exactly the stored habits with `isActive` |
| Database.HabitDatabase.GetHabit | src/lib/database.ts:107-118 | fails iff not initialized; otherwise returns the habit stored under the id, or nothing iff there is none |
| Database.HabitDatabase.AddEntry | src/lib/database.ts:121-132 | fails if not initialized, or with a constraint error iff another entry holds the same habit and day; otherwise upserts the entry and updates the index, and a lookup of its habit and day then returns it |
| Database.HabitDatabase.GetEntry | src/lib/database.ts:134-146 | fails iff not initialized; otherwise returns the entry the unique index files under the habit and date, or nothing iff no stored entry has them |
| Database.HabitDatabase.GetEntriesForHabit | src/lib/database.ts:148-160 | fails iff not initialized; otherwise lists, once each, exactly the stored entries of the habit |
| Database.HabitDatabase.GetEntriesForDate | src/lib/database.ts:162-174 | fails iff not initialized; otherwise lists, once each, exactly the stored entries of the date |
| Service.Insert | src/lib/habitService.ts:57-61 | inserting adds exactly one occurrence of the element, as a multiset and by membership |
| Service.ConsKeepsSorted | src/lib/habitService.ts:57-61 | an element that precedes every element of a sorted list can head it |
| Service.InsertKeepsSorted | src/lib/habitService.ts:57-61 | the comparator's order is total, so insertion keeps a list sorted overdue-first, then by creation |
| Service.ConsKeepsDistinct | src/lib/habitService.ts:47-52 | a record whose habit id is new can head a list with distinct ids |
| Service.InsertKeepsDistinct | src/lib/habitService.ts:57-61 | inserting a record with a new habit id keeps habit ids distinct |
| Service.SortByPriority | src/lib/habitService.ts:57-61 | the sort returns a permutation of its input, overdue records first and by ascending creation within each group |
| Service.Compare | src/lib/habitService.ts:57-61 | the comparator is negative exactly when the first record is overdue and the second not, or both agree and the first was created earlier; zero exactly on equal flag and creation |
| Service.Precedes | src/lib/habitService.ts:57-61 | a record may stand before another iff the comparator does not ask for a swap; otherwise the comparator puts the other strictly first, so the order is total |
| Service.SortKeepsDistinct | src/lib/habitService.ts:57-61 | sorting keeps habit ids distinct |
| Service.EntryOfHabit | src/lib/habitService.ts:39 | the entry found is among today's entries and belongs to the habit; none is found iff no such entry exists |
| Service.HistoryLookupIsStoreLookup | src/lib/habitService.ts:38-43 | the entry the status engine finds for a day in a habit's full listing is the one the store files under that habit and day |
| Service.TodayLookupIsStoreLookup | src/lib/habitService.ts:31-39 | the entry found for a habit in today's listing is the one the store files under that habit and today |
| Service.HistoryStatusIsStoreStatus | src/lib/habitService.ts:38-43 | the overdue flag and streak computed from the listing are those of the store's contents |
| Service.ScannedRecordIsView | src/lib/habitService.ts:36-52 | the record the loop pushes is the habit with its stored entry for today and its stored status |
| Service.ViewOf | src/lib/habitService.ts:47-52 | the pushed record holds the habit, its stored entry for today (of that habit and day), overdue iff due today and that entry is not completed, and a bounded streak that is 0 when overdue |
| Service.SortedScanIsTodaysList | src/lib/habitService.ts:36-63 | sorting the records gathered from the active habits yields exactly today's list |
| Service.OverdueOnlyWhenDue | src/lib/habitService.ts:46 | the filter `isDueToday \|\| status.isOverdue` keeps exactly the habits due today, because overdue already requires due |
| Service.CompletionEntryFits | src/lib/habitService.ts:91-110 | the entry `completeHabit` writes never clashes with the unique index and is keyed by the habit and today |
| Service.CompletionEntry | src/lib/habitService.ts:93-108 | the written entry is done with the given value and time; an existing entry keeps its id, habit and date, a new one takes the fresh id, the habit and today |
| Service.CompleteUpdatesExisting | src/lib/habitService.ts:91-110 | with an entry for today, completing keeps its id and marks it done with the given value and time; no entry is added, the others are unchanged and the index stays |
| Service.CompleteAddsOne | src/lib/habitService.ts:98-110 | without an entry for today, completing adds exactly one entry, under the fresh id, for this habit and day, done, and changes no other |
| Service.CompleteTwiceIsCompleteOnce | src/lib/habitService.ts:86-111 | completing again on the same day leaves the same ids, flags and index, changing only completion times, hence every habit's streak is the same |
| Service.UncompleteAfterComplete | src/lib/habitService.ts:114-127 | uncompleting after completing marks that same entry not done and clears its value and time, adding no row |
| Service.UncompleteEntries | src/lib/habitService.ts:118-124 | today's entry of the habit, if any, is marked not done with value and time cleared; no entry is added or removed and every other entry is unchanged |
| Service.HabitService.constructor | src/lib/habitService.ts:6-10 | a new service is not initialized, publishes an empty list and is loading |
| Service.HabitService.Init | src/lib/habitService.ts:12-18 | once initialized, a call changes nothing; otherwise it opens the store, propagating its failure unchanged, and on success refreshes |
| Service.HabitService.LoadTodaysHabits | src/lib/habitService.ts:20-69 | publishes exactly the active habits due today, each with its stored entry for today, overdue flag and streak, once each and sorted; a failed read leaves the list as it was; loading ends false |
| Service.HabitService.ScanHabit | src/lib/habitService.ts:38-46 | one loop pass keeps a habit iff it is due today, with the record `ViewOf` states |
| Service.HabitService.AddHabit | src/lib/habitService.ts:71-74 | the store's `add`, then a refresh on success; a failure leaves the published list alone |
| Service.HabitService.UpdateHabit | src/lib/habitService.ts:76-79 | the store's `put`, then a refresh on success |
| Service.HabitService.DeleteHabit | src/lib/habitService.ts:81-84 | the cascading delete, then a refresh on success |
| Service.HabitService.CompleteHabit | src/lib/habitService.ts:86-112 | with the store initialized, the write is never rejected; the entries and index become `CompleteEntries`/`CompleteIndex` and the list is refreshed |
| Service.HabitService.UncompleteHabit | src/lib/habitService.ts:114-127 | with an entry for today, it is marked not done with value and time cleared, under the same id and key, then a refresh; without one, nothing changes and no refresh happens |

## Left out

- `formatDate` and `parseDate` (src/lib/utils.ts:3-9) are not modelled: a date string is the day number it names.
  - The source formats in UTC (`toISOString`) but reads weekdays and compares instants in local time. Near midnight, the string date and the weekday can disagree. The model uses a single calendar.
- Utils.IsHabitDueToday, Utils.GetHabitStatus: creation and "today" are whole days.
  - The source compares millisecond instants: the `createdDate > today` test, the loop guard `checkDate >= createdDate`, and the floor of a millisecond difference divided by 86 400 000.
  - The model therefore does not capture the time of day, daylight-saving days of 23 or 25 hours, or floating-point division.
- `getStartOfMonth` (src/lib/utils.ts:24-26) has no caller in the core and no behaviour on day numbers; month and year rollover in `addDays` vanish on day numbers.
- The unreachable `default` case of `isHabitDueToday` (src/lib/utils.ts:63-64) is left out: `FrequencyType` has exactly five variants.
- The `sortedEntries` computation (src/lib/utils.ts:87-89) is left out, because its result is never used.
- `generateHabitId`/`generateEntryId` (`crypto.randomUUID`, src/lib/utils.ts:118-124) are not modelled. Service.HabitService.CompleteHabit takes a `freshId` not yet in the entries table.
- IndexedDB's promises, requests, transactions and upgrade callbacks are not modelled. Operations run one at a time to completion, so a cascading delete is atomic, and interleaved calls are not modelled.
- The `isActive`, `habitId` and `date` indexes are not modelled as structures: the lookups they serve are stated as filters over the tables.
- The order in which `getAll` lists records (key order) is not modelled: listings are stated as sets of distinct records.
- Service.SortByPriority, Service.Compare: records tie when they share the overdue flag and the creation day.
  - The source compares creation instants in milliseconds (src/lib/habitService.ts:60), so it also orders habits created on the same day; the model does not.
  - Within a tie, the model keeps the input order, which is the `getAll` order the model leaves open.
- A new store starts empty. The model does not capture data persisted from an earlier session, nor a schema upgrade.
- Svelte's `writable` stores are modelled as the fields `habits` and `isLoading`. `console.error` is left out.
- Service.HabitService.CompleteHabit, Service.HabitService.UncompleteHabit: one `today` serves both the write and the refresh. The source reads the clock twice (src/lib/habitService.ts:87 or 115, and again at 24), so across midnight the entry and the refreshed list can fall on different days; the model does not capture that.
- Service.HabitService.Init: `this.initialized` is set before the refresh, as in the source. A refresh cannot fail once the store is open, so the model never publishes an error.
- Numbers (`value`, `target`, timestamps) are mathematical integers: no floating point and no overflow.


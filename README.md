# Routine Tracker: habit analytics engine

This project models the analytics core of the Routine Tracker front end, a
habit tracker whose state lives in four React hooks over a hosted database:

- **Completion ledger** (`useCompletions`): the user's completion records.
  It can toggle a (habit, day) on or off, ask whether one is completed,
  compute a habit's current streak, and count today's completions.
- **Statistics** (`useStats`): the current and the longest streak over all
  completion days, and the snapshot of habit and completion counts.
- **Badges** (`useBadges`):
  - the fixed catalog of six milestone badges;
  - awarding a badge, at most one of each type;
  - the threshold checks that award every badge whose milestone is reached.
- **Habit list** (`useHabits`):
  - the fetch query: the user's active habits, in `order_index` order;
  - create, which appends;
  - update, which replaces by identity;
  - soft delete, which deactivates the row in the store and removes it from the local list.

The model is written as follows:
- Each hook's state is a class with a `seq` field: `CompletionLedger`,
  `BadgeCollection` and `HabitList`. Its methods change that field as the
  hook's `set...` calls do.
- The loops of the source are methods, each proved against a ghost
  specification function:
  - `calculateCurrentStreak` is `Streaks.CalculateCurrentStreak`;
  - `calculateLongestStreak` is `Streaks.CalculateLongestStreak`;
  - `getHabitStreak` is `Completions.GetHabitStreak`.
- The pure parts are functions, and lemmas state what they promise:
  - `isCompleted`, `hasBadge` and `getTodayCompletionRate`;
  - the filters and maps;
  - the catalog.

Environment inputs are handled like this:
- Dates are day numbers (`Common.Day`). Consecutive calendar days differ by one.
- "Today" is a parameter.
- Every database call is a parameter that says whether it succeeded (`storeOk`).
- The values the database assigns on insert are parameters: the new identity `newId` and the timestamp `now`.
- The signed-in user is an `Option<Id>`.

The streaks are specified over the set of completion days:
- `RunEndingAt(S, d)` is the number of consecutive days `d`, `d - 1`, … that lie in `S`.
- The current streak is the run ending at the latest day, when that day is today or yesterday, and 0 otherwise.
- The longest streak is the largest run ending at any completion day.

Files: `common.dfy`, `lists.dfy` (the `[...new Set(xs)]` de-duplication and the
numeric sort), `streaks.dfy`, `completions.dfy`, `habits.dfy`, `stats.dfy`,
`badges.dfy`.

## Model

| member | source | states |
|---|---|---|
| Lists.Distinct | frontend/src/hooks/useStats.ts:57 | The de-duplicated list has no repeated day, holds exactly the days of its input and is no longer than it. |
| Lists.Sort | frontend/src/hooks/useStats.ts:57-58 | The sorted list is ordered in the requested direction and is a permutation of its input. A list without repeats comes out strictly ordered. |
| Lists.SortElems | frontend/src/hooks/useStats.ts:94-95 | Sorting keeps exactly the values and the length of its input. |
| Lists.Latest | frontend/src/hooks/useStats.ts:66 | The first entry of the descending order is a member of the list and no member is later. |
| Streaks.RunCharacterization | frontend/src/hooks/useStats.ts:73-86 | A run ending at `d` has length `k` exactly when the days `d-k+1 .. d` are all completion days and `d-k` is not. |
| Streaks.EmptyStreaks | frontend/src/hooks/useStats.ts:55 | Without completions both streaks are 0. |
| Streaks.CurrentStreakCharacterization | frontend/src/hooks/useStats.ts:60-88 | The current streak is `k` iff either (a) the latest day is neither today nor yesterday and `k` is 0, or (b) `k` days in a row end at the latest day and the day before them is not a completion day. |
| Streaks.LongestStreakIsMaximum | frontend/src/hooks/useStats.ts:97-114 | No run ending at any day is longer than the longest streak. The longest streak is reached at a completion day and is at least 1 for a non-empty list. |
| Streaks.StreaksIgnoreOrderAndRepeats | frontend/src/hooks/useStats.ts:57-58 | Two date lists with the same days give the same current and the same longest streak, whatever their order and repeats. |
| Streaks.StreakOrdering | frontend/src/hooks/useStats.ts:73-114 | current streak ≤ longest streak ≤ number of distinct completion days. |
| Streaks.ThreeDayScenario | frontend/src/hooks/useStats.ts:54-115 | Completions today, yesterday and the day before give a current and a longest streak of 3. |
| Streaks.BrokenChainScenario | frontend/src/hooks/useStats.ts:54-115 | Completions two and three days ago only give a current streak of 0 and a longest streak of 2. |
| Streaks.CalculateCurrentStreak | frontend/src/hooks/useStats.ts:54-89 | The walk down the de-duplicated, descending days returns the current streak. |
| Streaks.CalculateLongestStreak | frontend/src/hooks/useStats.ts:91-115 | The scan over the de-duplicated, ascending days returns the longest streak. |
| Stats.CountActive | frontend/src/hooks/useStats.ts:36 | The active count is at most the number of habits, and equals it exactly when every habit is active. |
| Stats.CompletionDates | frontend/src/hooks/useStats.ts:57 | The date list has one entry per completion, position by position its completion day. |
| Stats.CalculateStats | frontend/src/hooks/useStats.ts:30-40 | total = number of habits; active = number of active habits ≤ total; completions = number of records; both streaks equal their specifications over all completion days; current ≤ longest ≤ completions. |
| Stats.FetchedHabitsAreActive | frontend/src/hooks/useStats.ts:36 | On a freshly fetched habit list the active count equals the total. |
| Completions.IsCompleted | frontend/src/hooks/useCompletions.ts:74-78 | The scan holds exactly when some record is for that habit on that day. |
| Completions.Find | frontend/src/hooks/useCompletions.ts:42-44 | The result is absent iff (habit, day) is not completed. Otherwise it is the first position holding a record for that habit on that day. |
| Completions.WithoutId | frontend/src/hooks/useCompletions.ts:53 | The filter keeps exactly the records with another identity and is no longer than its input. |
| Completions.Toggled | frontend/src/hooks/useCompletions.ts:42-70 | When (habit, day) is not completed, the list grows by one: a record for that habit and day with the new identity in front, then the old list unchanged. When it is completed, every remaining record was there before and the record found is gone. |
| Completions.TodayCompletionRate | frontend/src/hooks/useCompletions.ts:120-123 | Today's count is at most the number of records, and is positive iff some record is dated today. |
| Completions.HabitDatesMembers | frontend/src/hooks/useCompletions.ts:81-83 | A habit's dates are exactly the days on which `isCompleted` holds for it. |
| Completions.GetHabitStreak | frontend/src/hooks/useCompletions.ts:80-118 | The loop returns the habit's streak as specified: 0 without completions or when the latest is neither today nor yesterday, else the leading chain of steps of at most one day. |
| Completions.HabitStreakBounds | frontend/src/hooks/useCompletions.ts:86-100 | The per-habit streak is 0 exactly when the habit has no completion or its latest is neither today nor yesterday. It never exceeds the habit's number of records. |
| Completions.HabitStreakIsCurrentStreak | frontend/src/hooks/useCompletions.ts:103-115 | With at most one record per (habit, day), the per-habit streak is the current streak of that habit's completion days. |
| Completions.HabitStreakCountsRepeats | frontend/src/hooks/useCompletions.ts:107-108 | Two same-day records of one habit today give a per-habit streak of 2, where the run of distinct days is 1. |
| Completions.OtherHabitToggleKeepsDates | frontend/src/hooks/useCompletions.ts:81-82 | Toggling another habit leaves this habit's completion dates unchanged. |
| Completions.OtherHabitToggleKeepsStreak | frontend/src/hooks/useCompletions.ts:81-82 | Toggling another habit leaves this habit's streak unchanged. |
| Completions.ToggleFlips | frontend/src/hooks/useCompletions.ts:39-72 | A toggle flips whether (habit, day) is completed. |
| Completions.ToggleKeepsInvariant | frontend/src/hooks/useCompletions.ts:42-68 | With an unused new identity, a toggle keeps identities unique and at most one record per (habit, day). |
| Completions.ToggleRemovesFound | frontend/src/hooks/useCompletions.ts:46-55 | On a completed (habit, day) the toggle removes exactly the record found and keeps all others in their order. |
| Completions.ToggleTwice | frontend/src/hooks/useCompletions.ts:39-72 | Two toggles restore whether (habit, day) is completed. When the first one inserted, the list is exactly as before. |
| Completions.ToggleMovesTodayCount | frontend/src/hooks/useCompletions.ts:39-72 | Toggling (habit, today) lowers today's count by one when it was completed, and raises it by one when it was not. |
| Completions.CompletionLedger.constructor | frontend/src/hooks/useCompletions.ts:16 | The ledger starts empty and satisfies its invariant. |
| Completions.CompletionLedger.ToggleCompletion | frontend/src/hooks/useCompletions.ts:39-72 | Without a user, or on a failed store call: no answer and no change. Otherwise: the answer is the new completed state (`true` after an insert in front, `false` after the removal by identity), and the list is the toggled list. The invariant is kept. |
| Habits.ActiveOfUser | frontend/src/hooks/useHabits.ts:31-32 | The query keeps exactly the user's active rows and is no longer than the table. |
| Habits.ActiveOfUserCount | frontend/src/hooks/useHabits.ts:31-32 | An active row of the user appears in the result as often as in the table; any other row does not appear. |
| Habits.SortByIndex | frontend/src/hooks/useHabits.ts:33 | The ordering is ascending in `order_index` and is a permutation of its input. |
| Habits.FetchQuery | frontend/src/hooks/useHabits.ts:28-33 | The rows the query returns are in ascending `order_index`, and each is an active row of the user. |
| Habits.FetchContract | frontend/src/hooks/useHabits.ts:28-33 | The fetch returns exactly the user's active rows, each as often as in the table, in ascending `order_index`. |
| Habits.ReplaceById | frontend/src/hooks/useHabits.ts:73 | The length is kept; an entry with the identity becomes the returned row; every other entry is unchanged. |
| Habits.WithoutHabit | frontend/src/hooks/useHabits.ts:84 | The filter keeps exactly the habits with another identity and is no longer than its input. |
| Habits.SoftDeleted | frontend/src/hooks/useHabits.ts:78-81 | The table keeps its length; rows with the identity are deactivated; no other row changes. |
| Habits.WithoutHabitKeepsOthers | frontend/src/hooks/useHabits.ts:84 | Removing an absent identity changes nothing. Otherwise every other habit keeps its count and the matching ones are gone. |
| Habits.WithoutUniqueHabit | frontend/src/hooks/useHabits.ts:84 | When exactly one entry has the identity, the filter removes that entry and keeps all the others in their order. |
| Habits.SoftDeleteMatchesLocalRemoval | frontend/src/hooks/useHabits.ts:77-86 | A refetch after the soft delete holds the same habits as the local list after the removal. |
| Habits.SoftDeletedNotFetched | frontend/src/hooks/useHabits.ts:77-86 | After the soft delete no fetched habit has the deleted identity. |
| Habits.HabitList.constructor | frontend/src/hooks/useHabits.ts:21 | The list starts empty. |
| Habits.HabitList.FetchHabits | frontend/src/hooks/useHabits.ts:24-39 | With a user and a successful query the list becomes the query's rows; otherwise it is unchanged. |
| Habits.HabitList.CreateHabit | frontend/src/hooks/useHabits.ts:45-62 | With no user the answer is nothing; on a store error it is an error. In both cases the list is unchanged. On success the stored row is returned and appended at the end, and earlier entries are unchanged. |
| Habits.HabitList.UpdateHabit | frontend/src/hooks/useHabits.ts:64-75 | On success entries with the identity become the returned row; on an error nothing changes. The length is kept. Every other entry keeps its identity; an entry with the identity takes the returned row's identity. |
| Habits.HabitList.DeleteHabit | frontend/src/hooks/useHabits.ts:77-86 | On success the list becomes the filter by identity: exactly the entries with the identity are removed (`WithoutHabit`), and the others keep their order (`WithoutUniqueHabit`). On an error nothing changes. |
| Badges.CatalogTypesDistinct | frontend/src/hooks/useBadges.ts:23-72 | The catalog has six entries, of pairwise distinct types with distinct tags. |
| Badges.CatalogTypesListed | frontend/src/hooks/useBadges.ts:23-72 | The catalog's types in order are first_habit, streak_7, streak_30, streak_100, habits_5, completions_100. |
| Badges.CatalogCoversTypes | frontend/src/hooks/useBadges.ts:23-72 | Every badge type has a catalog entry. |
| Badges.CatalogRequirementsAreThresholds | frontend/src/hooks/useBadges.ts:130-152 | Each catalog requirement is the threshold its check applies to the statistic it is gated on. |
| Badges.CheckOrderCoversTypes | frontend/src/hooks/useBadges.ts:130-152 | The checks test every badge type exactly once, as many checks as catalog entries. |
| Badges.HasBadge | frontend/src/hooks/useBadges.ts:121-123 | The scan holds exactly when some badge in the list has the type. |
| Badges.StoredHabitId | frontend/src/hooks/useBadges.ts:110 | An absent or empty habit identity is stored as no habit; any other is stored unchanged. |
| Badges.Awarded | frontend/src/hooks/useBadges.ts:99-119 | The list gains at most one badge, in front, and the old list follows unchanged. It changes exactly when there is a user, the type is not held and the insert succeeds. The new badge then has that type, the new identity, the user and the stored habit column. |
| Badges.AwardProperties | frontend/src/hooks/useBadges.ts:99-119 | An award keeps at most one badge per type. Afterwards a type is held iff it was held before, or it is the awarded type and there is a user and the insert succeeded. |
| Badges.NoUserChecksNothing | frontend/src/hooks/useBadges.ts:100 | Without a user the checks leave the badge list unchanged. |
| Badges.CheckOneHolds | frontend/src/hooks/useBadges.ts:130-132 | One check adds its type exactly when the threshold is met, there is a user and the insert succeeds. No other type changes. |
| Badges.CheckOrderSteps | frontend/src/hooks/useBadges.ts:125-153 | The six checks, run one after another in the source's order, give the checks of `CheckOrder`. |
| Badges.CheckAllKeeps | frontend/src/hooks/useBadges.ts:125-153 | The checks keep one badge per type and keep the earlier badges, in order, at the end. |
| Badges.CheckAllHolds | frontend/src/hooks/useBadges.ts:125-153 | After the checks a type is held iff it was held before, or (it is checked, there is a user, its threshold is met and its insert succeeds). |
| Badges.CheckAllHeld | frontend/src/hooks/useBadges.ts:130-152 | When every met type is already held the checks change nothing. |
| Badges.CheckAndAwardExactly | frontend/src/hooks/useBadges.ts:125-153 | The newly held types are exactly those not held before whose threshold is met and whose insert succeeds, given a user. |
| Badges.CheckAndAwardIdempotent | frontend/src/hooks/useBadges.ts:125-153 | Once the first round's inserts all succeed, a second round with the same statistics adds nothing. |
| Badges.MilestoneScenario | frontend/src/hooks/useBadges.ts:125-153 | Six habits, 150 completions and a 31-day streak with no badges yet give every badge except the 100-day streak. |
| Badges.StaleLastAwardWins | frontend/src/hooks/useBadges.ts:116 | As written, one call leaves the local list either unchanged or as the list the call started from with a single badge in front. That badge has a checked type whose threshold is met. |
| Badges.StaleUpdateLosesBadge | frontend/src/hooks/useBadges.ts:116 | As written, five habits with no badges end with a local list holding only habits_5, without first_habit. |
| Badges.BadgeCollection.constructor | frontend/src/hooks/useBadges.ts:76 | The collection starts empty, one badge per type. |
| Badges.BadgeCollection.AwardBadge | frontend/src/hooks/useBadges.ts:99-119 | Without a user, or when the type is held: no change and no badge. Otherwise a successful insert puts the returned badge in front, with the habit column as stored, and afterwards the type is held. One badge per type is kept. |
| Badges.BadgeCollection.AwardIfMet | frontend/src/hooks/useBadges.ts:130-132 | One threshold test, given the source's comparison for the type: the list becomes the single check of that type, which awards it when the threshold is met and it is not held, and otherwise changes nothing. One badge per type is kept. |
| Badges.BadgeCollection.CheckAndAwardBadges | frontend/src/hooks/useBadges.ts:125-153 | The six threshold tests in the source's order leave the list that the sequential checks compute, one badge per type; `CheckAndAwardExactly` says which types that adds. |

## Left out

- Dates and time zones:
  - The source turns date strings into JavaScript `Date` values and takes day differences with `Math.floor` of milliseconds.
  - `calculateCurrentStreak` (frontend/src/hooks/useStats.ts:60-67) and `getHabitStreak` (frontend/src/hooks/useCompletions.ts:89-96) take today as local midnight and normalise the latest date with `setHours(0, 0, 0, 0)`.
  - `calculateLongestStreak` (frontend/src/hooks/useStats.ts:101-104) does not normalise; it compares the parsed dates as they are.
  - `getTodayCompletionRate` (frontend/src/hooks/useCompletions.ts:121) takes today as the UTC calendar date from `toISOString`.
  - The model works on day numbers with one `today`. It therefore merges the UTC date and the local date, which differ near midnight in any zone other than UTC. It does not capture a one-day shift between UTC-parsed date strings and local midnight, or daylight-saving days that are not 24 hours long.
- Fetching completions and badges (`fetchCompletions`, `fetchBadges`): these only copy the store's rows into state.
  - `CompletionLedger` and `BadgeCollection` start empty and are changed only by their own operations.
  - The invariants one record per (habit, day) and one badge per type therefore hold for lists built through them, not for arbitrary store contents.
- `updateStatsInDatabase` is not modelled: it writes the snapshot to the store, which is network I/O.
- Realtime subscriptions, loading flags, React effect scheduling and the rendering components are not modelled.
- Badges.BadgeCollection.CheckAndAwardBadges: it models the evidently intended sequential update of the badge list. The render-time list that the source's awards reuse is modelled separately, in `StaleCheckAll` (see Findings). Both read the same snapshot for their `hasBadge` tests, so the awarded types and store writes agree; only the local list differs.
- Badges.BadgeCollection.CheckAndAwardBadges: its contract gives the resulting list as `CheckAll` of the old one. Which types are held afterwards is stated by the lemma `CheckAndAwardExactly`, not by the method's own `ensures`.
- Badge icons (UI components) and arbitrary badge-type strings are not modelled. `awardBadge` accepts any string; the model accepts the six catalog types.
- Habits.HabitList.UpdateHabit: the patch (`Partial<Habit>`) and how the store applies it are not modelled. The method receives the row the store returns, or none on an error.
- Habits.SortByIndex: the model sorts ascending in `order_index` and keeps rows with equal indices in the order of insertion. The store promises no order among equal indices, so only the multiset and the ascending order are relied on.
- Completions.CompletionLedger.ToggleCompletion: the store's default for `notes` and the `created_at` stamp are modelled as the empty string and the `now` parameter.
- `updateHabit` and `deleteHabit` do not check for a signed-in user in the source, and neither does the model.

## Findings

| source | as written | input that shows it | evidently intended | confidence | as-written member | corrected member |
|---|---|---|---|---|---|---|
| frontend/src/hooks/useBadges.ts:116 | Each successful award sets the local badge list to the new badge in front of the list captured when `checkAndAwardBadges` began. When a call awards several badges, only the last one reaches the local list; a later call tests the lost types against that list and tries to insert them again. | Five habits, no badges yet, both inserts succeed: the store holds first_habit and habits_5, but the local list holds only habits_5 | Every badge awarded in the call is in the local list | medium (React state-closure semantics), not executed | Badges.StaleUpdateLosesBadge | Badges.CheckAndAwardExactly |

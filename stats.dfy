/** The statistics snapshot the statistics hook derives from the habit list
    and the completion ledger. */
module Stats {
  import opened Lists
  import opened Streaks
  import opened Completions
  import opened Habits

  datatype Snapshot = Snapshot(
    totalHabits: nat,
    activeHabits: nat,
    totalCompletions: nat,
    currentStreak: nat,
    longestStreak: nat)

  /** `habits.filter(h => h.is_active).length`. */
  function CountActive(hs: seq<Habit>): (n: nat)
    ensures n <= |hs|
    ensures n == |hs| <==> forall h :: h in hs ==> h.isActive
  {
    if hs == [] then 0
    else
      assert forall h :: h in hs <==> h == hs[0] || h in hs[1..];
      (if hs[0].isActive then 1 else 0) + CountActive(hs[1..])
  }

  /** `completions.map(c => c.completed_at)`, across all habits. */
  function CompletionDates(cs: seq<Completion>): (r: seq<int>)
    ensures |r| == |cs|
    ensures forall i :: 0 <= i < |cs| ==> r[i] == cs[i].completedAt
  {
    if cs == [] then [] else [cs[0].completedAt] + CompletionDates(cs[1..])
  }

  /** `calculateStats`: counts of habits, active habits and completions, and
      both streaks over the completion days of all habits together. */
  method CalculateStats(habits: seq<Habit>, completions: seq<Completion>, today: int)
    returns (stats: Snapshot)
    ensures stats.totalHabits == |habits|
    ensures stats.activeHabits == CountActive(habits) <= stats.totalHabits
    ensures stats.totalCompletions == |completions|
    ensures stats.currentStreak == CurrentStreakOf(CompletionDates(completions), today)
    ensures stats.longestStreak == LongestStreakOf(CompletionDates(completions))
    ensures stats.currentStreak <= stats.longestStreak <= stats.totalCompletions
  {
    var dates := CompletionDates(completions);
    var currentStreak := CalculateCurrentStreak(dates, today);
    var longestStreak := CalculateLongestStreak(dates);
    StreakOrdering(dates, today);
    ElemsBound(dates);
    stats := Snapshot(|habits|, CountActive(habits), |completions|, currentStreak, longestStreak);
  }

  /** A freshly fetched habit list holds active habits only, so its active
      count is its length. */
  lemma FetchedHabitsAreActive(table: seq<Habit>, userId: Common.Id)
    ensures CountActive(FetchQuery(table, userId)) == |FetchQuery(table, userId)|
  {
    FetchContract(table, userId);
  }
}

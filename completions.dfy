/** The completion ledger of the completions hook: the signed-in user's
    completion records, the toggle that deletes or inserts the record of a
    (habit, day) pair, the membership test, the per-habit streak and the count
    of today's completions. */
module Completions {
  import opened Common
  import opened Lists
  import opened Streaks

  /** One completion record: habit `habitId` was done on day `completedAt`. */
  datatype Completion = Completion(
    id: Id,
    habitId: Id,
    userId: Id,
    completedAt: Day,
    notes: string,
    createdAt: int)

  predicate Matches(c: Completion, habitId: Id, date: Day) {
    c.habitId == habitId && c.completedAt == date
  }

  /** No two records share an identity. */
  ghost predicate UniqueIds(cs: seq<Completion>) {
    forall i, j :: 0 <= i < j < |cs| ==> cs[i].id != cs[j].id
  }

  /** At most one record per (habit, day). */
  ghost predicate OnePerHabitDay(cs: seq<Completion>) {
    forall i, j :: 0 <= i < j < |cs| ==> !Matches(cs[j], cs[i].habitId, cs[i].completedAt)
  }

  /** `isCompleted`: the scan of `completions.some`, which holds exactly
      when some record is for this habit on this day. */
  predicate IsCompleted(cs: seq<Completion>, habitId: Id, date: Day): (b: bool)
    ensures b <==> exists c :: c in cs && Matches(c, habitId, date)
  {
    if cs == [] then false
    else
      assert forall c :: c in cs <==> c == cs[0] || c in cs[1..];
      Matches(cs[0], habitId, date) || IsCompleted(cs[1..], habitId, date)
  }

  /** `completions.find`: the position of the first record for (habit, day). */
  function Find(cs: seq<Completion>, habitId: Id, date: Day): (r: Option<nat>)
    ensures r.None? <==> !IsCompleted(cs, habitId, date)
    ensures r.Some? ==> r.value < |cs| && Matches(cs[r.value], habitId, date)
    ensures r.Some? ==> forall j :: 0 <= j < r.value ==> !Matches(cs[j], habitId, date)
  {
    if cs == [] then None
    else if Matches(cs[0], habitId, date) then Some(0)
    else
      assert forall c :: c in cs ==> c == cs[0] || c in cs[1..];
      match Find(cs[1..], habitId, date)
      case None => None
      case Some(k) => Some(k + 1)
  }

  /** `completions.filter(c => c.id !== id)`. */
  function WithoutId(cs: seq<Completion>, id: Id): (r: seq<Completion>)
    ensures forall c :: c in r <==> c in cs && c.id != id
    ensures |r| <= |cs|
  {
    if cs == [] then []
    else
      assert forall c :: c in cs <==> c == cs[0] || c in cs[1..];
      (if cs[0].id == id then [] else [cs[0]]) + WithoutId(cs[1..], id)
  }

  /** The record a successful insert of (habit, day) adds: the store assigns
      `newId`, stamps it with `now` and leaves the notes empty. */
  function NewCompletion(userId: Id, habitId: Id, date: Day, newId: Id, now: int): Completion {
    Completion(newId, habitId, userId, date, "", now)
  }

  /** The list after a toggle whose store call succeeded: the first record of
      (habit, day) deleted by identity if there is one, otherwise a new record
      in front. */
  function Toggled(cs: seq<Completion>, userId: Id, habitId: Id, date: Day, newId: Id, now: int): (r: seq<Completion>)
    ensures !IsCompleted(cs, habitId, date) ==>
              |r| == |cs| + 1 && r[1..] == cs && r[0].id == newId && Matches(r[0], habitId, date)
    ensures IsCompleted(cs, habitId, date) ==>
              (forall c :: c in r ==> c in cs) && cs[Find(cs, habitId, date).value] !in r
  {
    match Find(cs, habitId, date)
    case Some(k) => WithoutId(cs, cs[k].id)
    case None => [NewCompletion(userId, habitId, date, newId, now)] + cs
  }

  /** `getTodayCompletionRate`: the number of records dated `today`. */
  function TodayCompletionRate(cs: seq<Completion>, today: Day): (n: nat)
    ensures n <= |cs|
    ensures n > 0 <==> exists c :: c in cs && c.completedAt == today
  {
    if cs == [] then 0
    else
      assert forall c :: c in cs <==> c == cs[0] || c in cs[1..];
      (if cs[0].completedAt == today then 1 else 0) + TodayCompletionRate(cs[1..], today)
  }

  /** `completions.filter(c => c.habit_id === habitId).map(c => c.completed_at)`. */
  function HabitDates(cs: seq<Completion>, habitId: Id): (r: seq<int>)
    ensures |r| <= |cs|
  {
    if cs == [] then []
    else
      (if cs[0].habitId == habitId then [cs[0].completedAt] else []) + HabitDates(cs[1..], habitId)
  }

  /** A habit's days are exactly the days on which it is completed. */
  lemma {:induction false} HabitDatesMembers(cs: seq<Completion>, habitId: Id)
    ensures forall d :: d in HabitDates(cs, habitId) <==> IsCompleted(cs, habitId, d)
  {
    if cs != [] {
      HabitDatesMembers(cs[1..], habitId);
      assert forall c :: c in cs <==> c == cs[0] || c in cs[1..];
      assert forall d :: IsCompleted(cs, habitId, d) <==>
        Matches(cs[0], habitId, d) || IsCompleted(cs[1..], habitId, d);
    }
  }

  /** The number of leading entries of a descending list in which each entry is
      at most one day before the previous one. */
  function ChainLength(hs: seq<int>): (n: nat)
    requires hs != []
    ensures 1 <= n <= |hs|
  {
    if |hs| == 1 || hs[0] - hs[1] > 1 then 1 else 1 + ChainLength(hs[1..])
  }

  /** Specification of `getHabitStreak`: that habit's completion days in
      descending order, repeats included; zero without any or when the latest
      is neither today nor yesterday; otherwise the length of the leading chain. */
  ghost function HabitStreakOf(cs: seq<Completion>, habitId: Id, today: Day): nat {
    var hs := Sort(HabitDates(cs, habitId), true);
    if hs == [] || (hs[0] != today && hs[0] != today - 1) then 0 else ChainLength(hs)
  }

  /** The loop of `getHabitStreak`. A same-day entry (day difference 0) counts
      without moving on; a one-day step counts and moves on; a larger gap stops. */
  method GetHabitStreak(completions: seq<Completion>, habitId: Id, today: Day) returns (streak: nat)
    ensures streak == HabitStreakOf(completions, habitId, today)
  {
    var habitCompletions := Sort(HabitDates(completions, habitId), true);
    if |habitCompletions| == 0 {
      return 0;
    }
    streak := 0;
    var lastCompletion := habitCompletions[0];
    if lastCompletion != today && lastCompletion != today - 1 {
      return 0;
    }
    var currentDate := lastCompletion;
    var i := 0;
    while i < |habitCompletions|
      invariant 0 <= i <= |habitCompletions|
      invariant streak == i
      invariant currentDate == habitCompletions[if i == 0 then 0 else i - 1]
      invariant forall j :: 0 < j < i ==> habitCompletions[j - 1] - habitCompletions[j] <= 1
    {
      var dayDiff := currentDate - habitCompletions[i];
      if dayDiff == 0 {
        streak := streak + 1;
      } else if dayDiff == 1 {
        streak := streak + 1;
        currentDate := habitCompletions[i];
      } else {
        break;
      }
      i := i + 1;
    }
    ChainEnd(habitCompletions, i);
  }

  /** Where the loop of `GetHabitStreak` stops is the chain length. */
  lemma {:induction false} ChainEnd(hs: seq<int>, i: nat)
    requires SortedBy(hs, true)
    requires 0 < i <= |hs|
    requires forall j :: 0 < j < i ==> hs[j - 1] - hs[j] <= 1
    requires i < |hs| ==> hs[i - 1] - hs[i] > 1
    ensures ChainLength(hs) == i
  {
    if i > 1 {
      assert hs[0] - hs[1] <= 1;
      var t := hs[1..];
      assert SortedBy(t, true) by {
        forall a, b | 0 <= a < b < |t| ensures InOrder(t[a], t[b], true) {
          assert t[a] == hs[a + 1] && t[b] == hs[b + 1];
        }
      }
      forall j | 0 < j < i - 1 ensures t[j - 1] - t[j] <= 1 {
        assert t[j - 1] == hs[j] && t[j] == hs[j + 1];
      }
      ChainEnd(t, i - 1);
    }
  }

  // ---------------------------------------------------------------------
  // The toggle

  /** A toggle flips whether (habit, day) is completed. */
  lemma ToggleFlips(cs: seq<Completion>, userId: Id, habitId: Id, date: Day, newId: Id, now: int)
    requires OnePerHabitDay(cs)
    ensures IsCompleted(Toggled(cs, userId, habitId, date, newId, now), habitId, date)
            == !IsCompleted(cs, habitId, date)
  {
    var r := Toggled(cs, userId, habitId, date, newId, now);
    match Find(cs, habitId, date)
    case Some(k) =>
      forall c | c in r ensures !Matches(c, habitId, date) {
        var j :| 0 <= j < |cs| && cs[j] == c;
      }
    case None =>
      assert r[0] in r;
  }

  /** A toggle keeps identities unique and (habit, day) pairs single, provided
      the store's new identity is unused. */
  lemma ToggleKeepsInvariant(cs: seq<Completion>, userId: Id, habitId: Id, date: Day, newId: Id, now: int)
    requires UniqueIds(cs) && OnePerHabitDay(cs)
    requires forall c :: c in cs ==> c.id != newId
    ensures var r := Toggled(cs, userId, habitId, date, newId, now);
            UniqueIds(r) && OnePerHabitDay(r)
  {
    match Find(cs, habitId, date)
    case Some(k) =>
      WithoutUniqueId(cs, k);
      SubsequenceKeepsInvariant(cs, k);
    case None =>
      var r := [NewCompletion(userId, habitId, date, newId, now)] + cs;
      forall i, j | 0 <= i < j < |r|
        ensures r[i].id != r[j].id && !Matches(r[j], r[i].habitId, r[i].completedAt)
      {
        if i == 0 {
          assert r[j] in cs;
        } else {
          assert r[i] == cs[i - 1] && r[j] == cs[j - 1];
        }
      }
  }

  lemma SubsequenceKeepsInvariant(cs: seq<Completion>, k: nat)
    requires k < |cs|
    requires UniqueIds(cs) && OnePerHabitDay(cs)
    ensures UniqueIds(cs[..k] + cs[k + 1..]) && OnePerHabitDay(cs[..k] + cs[k + 1..])
  {
    var r := cs[..k] + cs[k + 1..];
    forall i | 0 <= i < |r| ensures r[i] == cs[if i < k then i else i + 1] {
    }
  }

  /** With unique identities, deleting by the identity of record `k` removes
      exactly that record and keeps the others in order. */
  lemma {:induction false} WithoutUniqueId(cs: seq<Completion>, k: nat)
    requires k < |cs| && UniqueIds(cs)
    ensures WithoutId(cs, cs[k].id) == cs[..k] + cs[k + 1..]
  {
    var t := cs[1..];
    TailUniqueIds(cs);
    if k == 0 {
      WithoutHeadId(cs);
    } else {
      WithoutUniqueId(t, k - 1);
      WithoutLaterId(cs, k, WithoutId(t, cs[k].id));
    }
  }

  lemma TailUniqueIds(cs: seq<Completion>)
    requires cs != [] && UniqueIds(cs)
    ensures UniqueIds(cs[1..])
    ensures forall c :: c in cs[1..] ==> c.id != cs[0].id
  {
    var t := cs[1..];
    forall i, j | 0 <= i < j < |t| ensures t[i].id != t[j].id {
      assert t[i] == cs[i + 1] && t[j] == cs[j + 1];
    }
    forall c | c in t ensures c.id != cs[0].id {
      var i :| 0 <= i < |t| && t[i] == c;
      assert c == cs[i + 1];
    }
  }

  lemma WithoutHeadId(cs: seq<Completion>)
    requires cs != [] && forall c :: c in cs[1..] ==> c.id != cs[0].id
    ensures WithoutId(cs, cs[0].id) == cs[1..]
  {
    WithoutAbsentId(cs[1..], cs[0].id);
  }

  lemma WithoutLaterId(cs: seq<Completion>, k: nat, rest: seq<Completion>)
    requires 0 < k < |cs| && cs[0].id != cs[k].id
    requires rest == WithoutId(cs[1..], cs[k].id) && rest == cs[1..][..k - 1] + cs[1..][k..]
    ensures WithoutId(cs, cs[k].id) == cs[..k] + cs[k + 1..]
  {
    WithoutIdUnfold(cs, cs[k].id);
    SpliceCons(cs, k);
  }

  lemma WithoutIdUnfold(cs: seq<Completion>, id: Id)
    requires cs != [] && cs[0].id != id
    ensures WithoutId(cs, id) == [cs[0]] + WithoutId(cs[1..], id)
  {
  }

  lemma {:induction false} WithoutAbsentId(cs: seq<Completion>, id: Id)
    requires forall c :: c in cs ==> c.id != id
    ensures WithoutId(cs, id) == cs
  {
    if cs != [] {
      assert cs[0] in cs;
      WithoutAbsentId(cs[1..], id);
      assert cs == [cs[0]] + cs[1..];
    }
  }

  /** On a present (habit, day) the toggle removes exactly the record found
      and keeps the order of all others. */
  lemma ToggleRemovesFound(cs: seq<Completion>, userId: Id, habitId: Id, date: Day, newId: Id, now: int)
    requires UniqueIds(cs)
    requires IsCompleted(cs, habitId, date)
    ensures var k := Find(cs, habitId, date).value;
            Toggled(cs, userId, habitId, date, newId, now) == cs[..k] + cs[k + 1..]
  {
    WithoutUniqueId(cs, Find(cs, habitId, date).value);
  }

  /** Toggling twice restores whether (habit, day) is completed; when the first
      toggle inserted, the second removes that very record and the list is
      exactly as before. */
  lemma ToggleTwice(cs: seq<Completion>, userId: Id, habitId: Id, date: Day,
                    id1: Id, now1: int, id2: Id, now2: int)
    requires UniqueIds(cs) && OnePerHabitDay(cs)
    requires forall c :: c in cs ==> c.id != id1
    ensures var once := Toggled(cs, userId, habitId, date, id1, now1);
            var twice := Toggled(once, userId, habitId, date, id2, now2);
            && IsCompleted(twice, habitId, date) == IsCompleted(cs, habitId, date)
            && (!IsCompleted(cs, habitId, date) ==> twice == cs)
  {
    var once := Toggled(cs, userId, habitId, date, id1, now1);
    ToggleFlips(cs, userId, habitId, date, id1, now1);
    ToggleKeepsInvariant(cs, userId, habitId, date, id1, now1);
    ToggleFlips(once, userId, habitId, date, id2, now2);
    if !IsCompleted(cs, habitId, date) {
      assert Find(once, habitId, date) == Some(0);
      WithoutUniqueId(once, 0);
      assert once[1..] == cs;
    }
  }

  /** Toggling (habit, today) moves today's count by exactly one. */
  lemma ToggleMovesTodayCount(cs: seq<Completion>, userId: Id, habitId: Id, today: Day, newId: Id, now: int)
    requires UniqueIds(cs)
    ensures var n := TodayCompletionRate(Toggled(cs, userId, habitId, today, newId, now), today);
            if IsCompleted(cs, habitId, today) then n + 1 == TodayCompletionRate(cs, today)
            else n == TodayCompletionRate(cs, today) + 1
  {
    match Find(cs, habitId, today)
    case Some(k) =>
      WithoutUniqueId(cs, k);
      RateWithoutOne(cs, k, today);
    case None =>
      var r := [NewCompletion(userId, habitId, today, newId, now)] + cs;
      assert r[1..] == cs && r[0].completedAt == today;
  }

  /** Dropping the record at `k` lowers today's count by one exactly when it
      is dated today. */
  lemma RateWithoutOne(cs: seq<Completion>, k: nat, today: Day)
    requires k < |cs|
    ensures TodayCompletionRate(cs[..k] + cs[k + 1..], today) + (if cs[k].completedAt == today then 1 else 0)
            == TodayCompletionRate(cs, today)
  {
    assert cs == cs[..k] + [cs[k]] + cs[k + 1..];
    RateOfConcat(cs[..k] + [cs[k]], cs[k + 1..], today);
    RateOfConcat(cs[..k], [cs[k]], today);
    RateOfConcat(cs[..k], cs[k + 1..], today);
    assert [cs[k]][1..] == [];
  }

  lemma {:induction false} RateOfConcat(a: seq<Completion>, b: seq<Completion>, today: Day)
    ensures TodayCompletionRate(a + b, today) == TodayCompletionRate(a, today) + TodayCompletionRate(b, today)
  {
    if a != [] {
      RateOfConcat(a[1..], b, today);
      assert (a + b)[0] == a[0] && (a + b)[1..] == a[1..] + b;
    } else {
      assert a + b == b;
    }
  }

  // ---------------------------------------------------------------------
  // The per-habit streak

  /** The per-habit streak is zero exactly when the habit has no completion or
      its latest is neither today nor yesterday; it never exceeds the number of
      that habit's records. */
  lemma HabitStreakBounds(cs: seq<Completion>, habitId: Id, today: Day)
    ensures var ds := HabitDates(cs, habitId);
            && (HabitStreakOf(cs, habitId, today) == 0 <==>
                  ds == [] || (Latest(ds) != today && Latest(ds) != today - 1))
            && HabitStreakOf(cs, habitId, today) <= |ds|
  {
    var ds := HabitDates(cs, habitId);
    var hs := Sort(ds, true);
    SortElems(ds, true);
    if ds != [] {
      assert ds[0] in ds;
      assert Latest(ds) in hs;
      assert hs[0] in ds;
    }
  }

  /** Under the ledger's invariant (one record per habit and day) the per-habit
      streak is the current streak of that habit's completion days. */
  lemma HabitStreakIsCurrentStreak(cs: seq<Completion>, habitId: Id, today: Day)
    requires OnePerHabitDay(cs)
    ensures HabitStreakOf(cs, habitId, today) == CurrentStreakOf(HabitDates(cs, habitId), today)
  {
    var ds := HabitDates(cs, habitId);
    HabitDatesNoDup(cs, habitId);
    if ds != [] {
      SortedHeadIsLatest(ds);
      ChainIsRun(ds);
    }
  }

  /** The head of the descending sort is the latest day. */
  lemma SortedHeadIsLatest(ds: seq<int>)
    requires ds != []
    ensures Sort(ds, true) != [] && Sort(ds, true)[0] == Latest(ds)
  {
    var hs := Sort(ds, true);
    SortElems(ds, true);
    assert ds[0] in ds;
    assert Latest(ds) in hs;
    assert hs[0] in ds;
  }

  /** Over distinct days, the leading chain of the descending sort is the run
      of consecutive days ending at the latest one. */
  lemma ChainIsRun(ds: seq<int>)
    requires ds != [] && NoDup(ds)
    ensures Sort(ds, true) != []
    ensures ChainLength(Sort(ds, true)) == RunEndingAt(Elems(ds), Sort(ds, true)[0])
  {
    var hs := Sort(ds, true);
    var n := ChainLength(hs);
    StrictChain(hs);
    WalkedRun(hs, n);
    SortSameElems(ds);
  }

  lemma SortSameElems(ds: seq<int>)
    ensures Elems(Sort(ds, true)) == Elems(ds)
  {
    var hs := Sort(ds, true);
    SortElems(ds, true);
    forall x ensures x in Elems(hs) <==> x in Elems(ds) {
    }
  }

  /** In a strictly descending list every chain step is exactly one day. */
  lemma {:induction false} StrictChain(hs: seq<int>)
    requires hs != [] && StrictlySortedBy(hs, true)
    ensures var n := ChainLength(hs);
            && (forall j :: 0 <= j < n ==> hs[j] == hs[0] - j)
            && (n < |hs| ==> hs[n] != hs[0] - n)
  {
    if |hs| > 1 && hs[0] - hs[1] <= 1 {
      var t := hs[1..];
      assert StrictlySortedBy(t, true) by {
        forall a, b | 0 <= a < b < |t| ensures t[a] != t[b] && InOrder(t[a], t[b], true) {
          assert t[a] == hs[a + 1] && t[b] == hs[b + 1];
        }
      }
      StrictChain(t);
      var n := ChainLength(hs);
      assert n == 1 + ChainLength(t);
      forall j | 0 <= j < n ensures hs[j] == hs[0] - j {
        if j > 0 { assert hs[j] == t[j - 1]; }
      }
      if n < |hs| {
        assert hs[n] == t[n - 1];
        assert hs[n] < hs[n - 1];
      }
    }
  }

  /** Under the ledger's invariant, a habit's completion days are distinct. */
  lemma {:induction false} HabitDatesNoDup(cs: seq<Completion>, habitId: Id)
    requires OnePerHabitDay(cs)
    ensures NoDup(HabitDates(cs, habitId))
  {
    if cs != [] {
      var t := cs[1..];
      assert OnePerHabitDay(t) by {
        forall i, j | 0 <= i < j < |t| ensures !Matches(t[j], t[i].habitId, t[i].completedAt) {
          assert t[i] == cs[i + 1] && t[j] == cs[j + 1];
        }
      }
      HabitDatesNoDup(t, habitId);
      HabitDatesMembers(t, habitId);
      ConsNoDup(cs[0].completedAt, HabitDates(t, habitId));
    }
  }

  /** Without the invariant, same-day records each count: two records of one
      habit on today give a per-habit streak of two where the current streak of
      its days is one. */
  lemma HabitStreakCountsRepeats(a: Completion, b: Completion, today: Day)
    requires a.habitId == b.habitId && a.completedAt == today && b.completedAt == today
    ensures HabitStreakOf([a, b], a.habitId, today) == 2
    ensures CurrentStreakOf(HabitDates([a, b], a.habitId), today) == 1
  {
    var ds := HabitDates([a, b], a.habitId);
    assert [a, b][1..] == [b] && [b][1..] == [];
    assert HabitDates([b], a.habitId) == [today];
    assert ds == [today, today];
    SortElems(ds, true);
    var hs := Sort(ds, true);
    assert hs == [today, today] by {
      assert |hs| == 2 && hs[0] in ds && hs[1] in ds;
    }
    assert Latest(ds) == today;
    RunCharacterization(Elems(ds), today, 1);
  }

  /** A toggle of another habit leaves this habit's days alone. */
  lemma OtherHabitToggleKeepsDates(cs: seq<Completion>, userId: Id, other: Id, habitId: Id,
                                   date: Day, newId: Id, now: int)
    requires UniqueIds(cs) && other != habitId
    ensures HabitDates(Toggled(cs, userId, other, date, newId, now), habitId) == HabitDates(cs, habitId)
  {
    var found := Find(cs, other, date);
    if found.Some? {
      var k := found.value;
      forall c | c in cs && c.id == cs[k].id ensures c.habitId != habitId {
        var j :| 0 <= j < |cs| && cs[j] == c;
        assert j == k;
      }
      DatesWithoutId(cs, cs[k].id, habitId);
    } else {
      var n := NewCompletion(userId, other, date, newId, now);
      assert ([n] + cs)[1..] == cs;
    }
  }

  /** Deleting records of other habits leaves this habit's days alone. */
  lemma {:induction false} DatesWithoutId(cs: seq<Completion>, id: Id, habitId: Id)
    requires forall c :: c in cs && c.id == id ==> c.habitId != habitId
    ensures HabitDates(WithoutId(cs, id), habitId) == HabitDates(cs, habitId)
  {
    if cs != [] {
      assert cs[0] in cs;
      DatesWithoutId(cs[1..], id, habitId);
      var rest := WithoutId(cs[1..], id);
      if cs[0].id != id {
        assert ([cs[0]] + rest)[0] == cs[0] && ([cs[0]] + rest)[1..] == rest;
      } else {
        assert [] + rest == rest;
      }
    }
  }

  /** ... and so this habit's streak. */
  lemma OtherHabitToggleKeepsStreak(cs: seq<Completion>, userId: Id, other: Id, habitId: Id,
                                    date: Day, newId: Id, now: int, today: Day)
    requires UniqueIds(cs) && other != habitId
    ensures HabitStreakOf(Toggled(cs, userId, other, date, newId, now), habitId, today)
            == HabitStreakOf(cs, habitId, today)
  {
    var r := Toggled(cs, userId, other, date, newId, now);
    OtherHabitToggleKeepsDates(cs, userId, other, habitId, date, newId, now);
    assert HabitDates(r, habitId) == HabitDates(cs, habitId);
  }

  // ---------------------------------------------------------------------
  // The ledger's state

  /** The completions hook's state: the signed-in user's records. */
  class CompletionLedger {
    var completions: seq<Completion>

    ghost predicate Valid()
      reads this
    {
      UniqueIds(completions) && OnePerHabitDay(completions)
    }

    constructor ()
      ensures Valid() && completions == []
    {
      completions := [];
    }

    /** `toggleCompletion`. Without a user nothing happens; otherwise one store
        call (delete by identity, or insert) whose outcome is `storeOk`; only a
        successful call changes the list. The answer is the new completed state,
        or `None` where the source returns nothing. */
    method ToggleCompletion(user: Option<Id>, habitId: Id, date: Day,
                            storeOk: bool, newId: Id, now: int) returns (r: Option<bool>)
      requires Valid()
      requires forall c :: c in completions ==> c.id != newId
      modifies this
      ensures Valid()
      ensures user.None? || !storeOk ==> r == None && completions == old(completions)
      ensures user.Some? && storeOk ==>
                && r == Some(!old(IsCompleted(completions, habitId, date)))
                && completions == Toggled(old(completions), user.value, habitId, date, newId, now)
                && IsCompleted(completions, habitId, date) == r.value
    {
      if user.None? {
        return None;
      }
      ToggleFlips(completions, user.value, habitId, date, newId, now);
      ToggleKeepsInvariant(completions, user.value, habitId, date, newId, now);
      var existing := Find(completions, habitId, date);
      if existing.Some? {
        if storeOk {
          completions := WithoutId(completions, completions[existing.value].id);
          return Some(false);
        }
      } else {
        if storeOk {
          completions := [NewCompletion(user.value, habitId, date, newId, now)] + completions;
          return Some(true);
        }
      }
      return None;
    }
  }
}

/** The two streak calculations of the statistics hook, over the days on which
    some completion was recorded. Both work on the distinct days only, so the
    specification is stated over the set of those days: the length of the run
    of consecutive days that ends at a given day. */
module Streaks {
  import opened Lists

  /** The days of `S` on or before `d`; the measure that makes a run finite. */
  ghost function Below(S: set<int>, d: int): set<int> {
    set x | x in S && x <= d
  }

  /** The number of consecutive days `d`, `d - 1`, `d - 2`, ... that all lie in `S`. */
  ghost function RunEndingAt(S: set<int>, d: int): nat
    decreases |Below(S, d)|
  {
    if d in S then
      assert Below(S, d) == Below(S, d - 1) + {d};
      1 + RunEndingAt(S, d - 1)
    else 0
  }

  /** The longest run ending at one of the days in `xs`. */
  ghost function MaxRun(S: set<int>, xs: seq<int>): nat {
    if xs == [] then 0
    else
      var m := MaxRun(S, xs[..|xs| - 1]);
      var r := RunEndingAt(S, xs[|xs| - 1]);
      if r > m then r else m
  }

  /** Specification of the current streak: zero without completions or when
      the latest day is neither today nor yesterday, otherwise the run ending
      at the latest day. */
  ghost function CurrentStreakOf(dates: seq<int>, today: int): nat {
    if dates == [] then 0
    else
      var last := Latest(dates);
      if last != today && last != today - 1 then 0 else RunEndingAt(Elems(dates), last)
  }

  /** Specification of the longest streak: the longest run of consecutive days. */
  ghost function LongestStreakOf(dates: seq<int>): nat {
    MaxRun(Elems(dates), dates)
  }

  // ---------------------------------------------------------------------
  // The run of consecutive days

  /** A run of length `k` ending at `d`: `d - k + 1 .. d` are all days of `S`
      and `d - k` is not, and `RunEndingAt` is exactly that length. */
  lemma {:induction false} RunCharacterization(S: set<int>, d: int, k: nat)
    ensures RunEndingAt(S, d) == k <==>
              (forall x :: d - k < x <= d ==> x in S) && d - k !in S
    decreases |Below(S, d)|
  {
    if d in S {
      assert Below(S, d) == Below(S, d - 1) + {d};
      RunCharacterization(S, d - 1, RunEndingAt(S, d - 1));
      if k > 0 {
        RunCharacterization(S, d - 1, k - 1);
        if (forall x :: d - k < x <= d ==> x in S) && d - k !in S {
          assert forall x :: (d - 1) - (k - 1) < x <= d - 1 ==> x in S;
        }
      }
    }
  }

  /** A run never holds more days than the days of `S` up to its end. */
  lemma {:induction false} RunBound(S: set<int>, d: int)
    ensures RunEndingAt(S, d) <= |Below(S, d)| <= |S|
    decreases |Below(S, d)|
  {
    if d in S {
      assert Below(S, d) == Below(S, d - 1) + {d};
      RunBound(S, d - 1);
    }
    assert |S| == |Below(S, d)| + |S - Below(S, d)| by {
      assert S == Below(S, d) + (S - Below(S, d));
    }
  }

  /** A run that has started lies inside `S`. */
  lemma RunStartsInside(S: set<int>, d: int)
    ensures RunEndingAt(S, d) > 0 <==> d in S
  {
  }

  /** Adding a day later than every day of `S` leaves earlier runs alone. */
  lemma {:induction false} RunAddLater(S: set<int>, x: int, d: int)
    requires forall y :: y in S ==> y < x
    requires d < x
    ensures RunEndingAt(S + {x}, d) == RunEndingAt(S, d)
    decreases |Below(S, d)|
  {
    if d in S {
      assert Below(S, d) == Below(S, d - 1) + {d};
      RunAddLater(S, x, d - 1);
    }
  }

  // ---------------------------------------------------------------------
  // The maximum over runs

  /** `MaxRun` is the greatest run ending at a day of `xs`, and it is attained. */
  lemma {:induction false} MaxRunIsMaximum(S: set<int>, xs: seq<int>)
    ensures forall x :: x in xs ==> RunEndingAt(S, x) <= MaxRun(S, xs)
    ensures xs != [] ==> exists x :: x in xs && RunEndingAt(S, x) == MaxRun(S, xs)
  {
    if xs != [] {
      var init, last := xs[..|xs| - 1], xs[|xs| - 1];
      MaxRunIsMaximum(S, init);
      assert xs == init + [last];
      assert last in xs;
      forall x | x in xs ensures x in init || x == last {
      }
      if RunEndingAt(S, last) <= MaxRun(S, init) && init != [] {
        var w :| w in init && RunEndingAt(S, w) == MaxRun(S, init);
        assert w in xs;
      } else {
        assert RunEndingAt(S, last) == MaxRun(S, xs);
      }
    }
  }

  /** `MaxRun` depends only on which days `xs` holds. */
  lemma MaxRunSameDays(S: set<int>, xs: seq<int>, ys: seq<int>)
    requires forall x :: x in xs <==> x in ys
    ensures MaxRun(S, xs) == MaxRun(S, ys)
  {
    MaxRunIsMaximum(S, xs);
    MaxRunIsMaximum(S, ys);
    if xs != [] {
      var u :| u in xs && RunEndingAt(S, u) == MaxRun(S, xs);
      var v :| v in ys && RunEndingAt(S, v) == MaxRun(S, ys);
      assert v in xs && u in ys;
    }
  }

  /** Adding a day later than all of `S` and `xs` leaves the runs of `xs` alone. */
  lemma {:induction false} MaxRunAddLater(S: set<int>, x: int, xs: seq<int>)
    requires forall y :: y in S ==> y < x
    requires forall y :: y in xs ==> y < x
    ensures MaxRun(S + {x}, xs) == MaxRun(S, xs)
  {
    if xs != [] {
      var init, last := xs[..|xs| - 1], xs[|xs| - 1];
      assert xs == init + [last];
      assert last in xs;
      forall y | y in init ensures y < x {
        assert y in xs;
      }
      MaxRunAddLater(S, x, xs[..|xs| - 1]);
      RunAddLater(S, x, xs[|xs| - 1]);
    }
  }

  // ---------------------------------------------------------------------
  // Properties of the two streaks

  /** The longest streak is the longest run ending on any day at all, it is
      attained on a completion day, and it is at least one with any completion. */
  lemma LongestStreakIsMaximum(dates: seq<int>, d: int)
    ensures RunEndingAt(Elems(dates), d) <= LongestStreakOf(dates)
    ensures dates != [] ==> 1 <= LongestStreakOf(dates)
    ensures dates != [] ==> exists x :: x in dates && RunEndingAt(Elems(dates), x) == LongestStreakOf(dates)
  {
    MaxRunIsMaximum(Elems(dates), dates);
    RunStartsInside(Elems(dates), d);
    if dates != [] {
      RunStartsInside(Elems(dates), dates[0]);
    }
  }

  /** Without completions both streaks are zero. */
  lemma EmptyStreaks(today: int)
    ensures CurrentStreakOf([], today) == 0 && LongestStreakOf([]) == 0
  {
  }

  /** The current streak counts the run of consecutive days that ends at the
      latest completion day, when that day is today or yesterday, and is zero
      otherwise. */
  lemma CurrentStreakCharacterization(dates: seq<int>, today: int, k: nat)
    requires dates != []
    ensures var last := Latest(dates);
            CurrentStreakOf(dates, today) == k <==>
              if last != today && last != today - 1 then k == 0
              else (forall x :: last - k < x <= last ==> x in dates) && last - k !in dates
  {
    var last := Latest(dates);
    RunCharacterization(Elems(dates), last, k);
  }

  /** Neither streak depends on the order of the dates or on repeated dates. */
  lemma StreaksIgnoreOrderAndRepeats(a: seq<int>, b: seq<int>, today: int)
    requires forall x :: x in a <==> x in b
    ensures CurrentStreakOf(a, today) == CurrentStreakOf(b, today)
    ensures LongestStreakOf(a) == LongestStreakOf(b)
  {
    forall x ensures x in Elems(a) <==> x in Elems(b) {
    }
    assert Elems(a) == Elems(b);
    if a != [] {
      assert b != [] by { assert a[0] in b; }
      assert Latest(a) == Latest(b) by {
        assert Latest(a) in b && Latest(b) in a;
      }
    }
    MaxRunSameDays(Elems(a), a, b);
  }

  /** current streak <= longest streak <= number of distinct days. */
  lemma StreakOrdering(dates: seq<int>, today: int)
    ensures CurrentStreakOf(dates, today) <= LongestStreakOf(dates) <= |Elems(dates)|
  {
    if dates != [] {
      LongestStreakIsMaximum(dates, Latest(dates));
      var w :| w in dates && RunEndingAt(Elems(dates), w) == LongestStreakOf(dates);
      RunBound(Elems(dates), w);
    }
  }

  /** Completions today and on the two days before, none on the third:
      both streaks are three. */
  lemma ThreeDayScenario(today: int)
    ensures CurrentStreakOf([today, today - 1, today - 2], today) == 3
    ensures LongestStreakOf([today, today - 1, today - 2]) == 3
  {
    var dates := [today, today - 1, today - 2];
    assert Latest(dates) == today;
    RunCharacterization(Elems(dates), today, 3);
    StreakOrdering(dates, today);
    assert |Elems(dates)| == 3 by { assert Elems(dates) == {today, today - 1, today - 2}; }
  }

  /** Completions two and three days ago only: no current streak, longest two. */
  lemma BrokenChainScenario(today: int)
    ensures CurrentStreakOf([today - 2, today - 3], today) == 0
    ensures LongestStreakOf([today - 2, today - 3]) == 2
  {
    var dates := [today - 2, today - 3];
    var S := Elems(dates);
    assert Latest(dates) == today - 2;
    RunCharacterization(S, today - 2, 2);
    RunCharacterization(S, today - 3, 1);
    assert dates[..1] == [today - 2];
    assert MaxRun(S, dates[..1]) == 2;
  }

  // ---------------------------------------------------------------------
  // The two loops

  /** The walk of `calculateCurrentStreak`: from the latest day downwards,
      counting each distinct day that is exactly one before the previous one. */
  method CalculateCurrentStreak(dates: seq<int>, today: int) returns (streak: nat)
    ensures streak == CurrentStreakOf(dates, today)
  {
    if |dates| == 0 {
      return 0;
    }
    var sortedDates := Sort(Distinct(dates), true);
    LatestFirst(dates);
    var lastDate := sortedDates[0];
    if lastDate != today && lastDate != today - 1 {
      return 0;
    }
    streak := 0;
    var expectedDate := lastDate;
    var i := 0;
    while i < |sortedDates|
      invariant 0 <= i <= |sortedDates|
      invariant streak == i && expectedDate == lastDate - i
      invariant forall j :: 0 <= j < i ==> sortedDates[j] == lastDate - j
    {
      if sortedDates[i] == expectedDate {
        streak := streak + 1;
        expectedDate := expectedDate - 1;
      } else {
        break;
      }
      i := i + 1;
    }
    DescendingWalk(dates, i);
  }

  /** The walk of `CalculateCurrentStreak` starts at the latest day. */
  lemma LatestFirst(dates: seq<int>)
    requires dates != []
    ensures Sort(Distinct(dates), true) != []
    ensures Sort(Distinct(dates), true)[0] == Latest(dates)
  {
    DistinctSorted(dates, true);
  }

  /** What both streak loops know of the distinct, sorted days: the same
      days as the input, strictly ordered, the latest one first when descending. */
  lemma DistinctSorted(dates: seq<int>, descending: bool)
    requires dates != []
    ensures var s := Sort(Distinct(dates), descending);
            && s != []
            && Elems(s) == Elems(dates)
            && StrictlySortedBy(s, descending)
            && (descending ==> s[0] == Latest(dates))
  {
    var s := Sort(Distinct(dates), descending);
    SortElems(Distinct(dates), descending);
    assert dates[0] in dates;
    assert forall x :: x in s <==> x in dates;
    assert Elems(s) == Elems(dates);
    if descending {
      assert Latest(dates) in s;
      assert s[0] in dates;
    }
  }

  /** The run that the walk of `CalculateCurrentStreak` counts. */
  lemma DescendingWalk(dates: seq<int>, i: nat)
    requires dates != []
    requires var s := Sort(Distinct(dates), true);
             && 0 < i <= |s|
             && (forall j :: 0 <= j < i ==> s[j] == s[0] - j)
             && (i < |s| ==> s[i] != s[0] - i)
    ensures RunEndingAt(Elems(dates), Latest(dates)) == i
  {
    DistinctSorted(dates, true);
    WalkedRun(Sort(Distinct(dates), true), i);
  }

  /** A strictly descending list whose first `i` entries step down one day at
      a time, and whose next entry (if any) breaks the step, holds a run of `i`. */
  lemma WalkedRun(s: seq<int>, i: nat)
    requires StrictlySortedBy(s, true)
    requires 0 < i <= |s|
    requires forall j :: 0 <= j < i ==> s[j] == s[0] - j
    requires i < |s| ==> s[i] != s[0] - i
    ensures RunEndingAt(Elems(s), s[0]) == i
  {
    forall x | s[0] - i < x <= s[0] ensures x in Elems(s) {
      assert s[s[0] - x] == x;
    }
    forall j | 0 <= j < |s| ensures s[j] != s[0] - i {
      if j >= i {
        assert s[i] < s[i - 1];
        assert s[j] <= s[i];
      }
    }
    RunCharacterization(Elems(s), s[0], i);
  }

  /** The scan of `calculateLongestStreak`: over the distinct days in
      ascending order, extend the running streak on a one-day step, restart it
      at one on a larger gap, and keep the maximum. */
  method CalculateLongestStreak(dates: seq<int>) returns (maxStreak: nat)
    ensures maxStreak == LongestStreakOf(dates)
  {
    if |dates| == 0 {
      return 0;
    }
    var sortedDates := Sort(Distinct(dates), false);
    DistinctSorted(dates, false);
    maxStreak := 1;
    var currentStreak := 1;
    LongestScanStart(sortedDates);
    var i := 1;
    while i < |sortedDates|
      invariant 1 <= i <= |sortedDates|
      invariant currentStreak == RunEndingAt(Elems(sortedDates[..i]), sortedDates[i - 1])
      invariant maxStreak == LongestStreakOf(sortedDates[..i]) >= 1
    {
      LongestScanStep(sortedDates, i);
      var dayDiff := sortedDates[i] - sortedDates[i - 1];
      if dayDiff == 1 {
        currentStreak := currentStreak + 1;
        if currentStreak > maxStreak {
          maxStreak := currentStreak;
        }
      } else {
        currentStreak := 1;
      }
      i := i + 1;
    }
    assert sortedDates[..i] == sortedDates;
    StreaksIgnoreOrderAndRepeats(sortedDates, dates, 0);
  }

  /** Before the scan: one day, a streak of one. */
  lemma LongestScanStart(s: seq<int>)
    requires s != []
    ensures RunEndingAt(Elems(s[..1]), s[0]) == 1
    ensures LongestStreakOf(s[..1]) == 1
  {
    var one := s[..1];
    assert one == [s[0]] && one[..0] == [];
    assert Elems(one) == {s[0]};
    RunCharacterization({s[0]}, s[0], 1);
    assert MaxRun({s[0]}, one) == 1;
  }

  /** One step of the scan: the run ending at the next day, and the new maximum. */
  lemma LongestScanStep(s: seq<int>, i: nat)
    requires StrictlySortedBy(s, false)
    requires 1 <= i < |s|
    ensures RunEndingAt(Elems(s[..i + 1]), s[i]) ==
              if s[i] - s[i - 1] == 1 then RunEndingAt(Elems(s[..i]), s[i - 1]) + 1 else 1
    ensures var r := RunEndingAt(Elems(s[..i + 1]), s[i]);
            var m := LongestStreakOf(s[..i]);
            LongestStreakOf(s[..i + 1]) == if r > m then r else m
  {
    var X := Elems(s[..i]);
    assert s[..i + 1] == s[..i] + [s[i]];
    assert Elems(s[..i + 1]) == X + {s[i]};
    assert forall y :: y in X ==> y <= s[i - 1] < s[i] by {
      forall y | y in X ensures y <= s[i - 1] < s[i] {
        var j :| 0 <= j < i && s[j] == y;
      }
    }
    assert s[i] in X + {s[i]};
    assert RunEndingAt(X + {s[i]}, s[i]) == 1 + RunEndingAt(X + {s[i]}, s[i] - 1);
    RunAddLater(X, s[i], s[i] - 1);
    if s[i] - s[i - 1] != 1 {
      assert s[i] - 1 !in X;
    }
    MaxRunAddLater(X, s[i], s[..i]);
    assert (s[..i + 1])[..i] == s[..i];
  }
}

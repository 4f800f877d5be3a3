/** The badge rule engine of the badges hook: the fixed catalog of six
    milestone badges, the award of one badge (at most one per type), and the
    threshold checks that award every badge whose milestone is reached. */
module Badges {
  import opened Common
  import opened Stats

  datatype BadgeType = FirstHabit | Streak7 | Streak30 | Streak100 | Habits5 | Completions100

  /** The type tag the store records. */
  function Tag(t: BadgeType): string {
    match t
    case FirstHabit => "first_habit"
    case Streak7 => "streak_7"
    case Streak30 => "streak_30"
    case Streak100 => "streak_100"
    case Habits5 => "habits_5"
    case Completions100 => "completions_100"
  }

  /** A catalog entry; the icon, a user-interface component, is not modelled. */
  datatype BadgeDefinition = BadgeDefinition(
    badgeType: BadgeType,
    name: string,
    description: string,
    color: string,
    requirement: nat)

  /** `BADGE_DEFINITIONS`, in the source's order. */
  const BadgeDefinitions: seq<BadgeDefinition> := [
    BadgeDefinition(FirstHabit, "Getting Started", "Created your first habit", "#10B981", 1),
    BadgeDefinition(Streak7, "Week Warrior", "Maintained a 7-day streak", "#F59E0B", 7),
    BadgeDefinition(Streak30, "Month Master", "Maintained a 30-day streak", "#8B5CF6", 30),
    BadgeDefinition(Streak100, "Century Champion", "Maintained a 100-day streak", "#EF4444", 100),
    BadgeDefinition(Habits5, "Habit Builder", "Created 5 different habits", "#3B82F6", 5),
    BadgeDefinition(Completions100, "Consistency King", "Completed 100 habit tasks", "#EC4899", 100)
  ]

  /** The snapshot field each badge type is gated on. */
  function GatedValue(stats: Snapshot, t: BadgeType): nat {
    match t
    case FirstHabit => stats.totalHabits
    case Habits5 => stats.totalHabits
    case Streak7 => stats.currentStreak
    case Streak30 => stats.currentStreak
    case Streak100 => stats.currentStreak
    case Completions100 => stats.totalCompletions
  }

  /** The threshold tests written out in `checkAndAwardBadges`. */
  predicate ThresholdMet(stats: Snapshot, t: BadgeType) {
    match t
    case FirstHabit => stats.totalHabits >= 1
    case Habits5 => stats.totalHabits >= 5
    case Streak7 => stats.currentStreak >= 7
    case Streak30 => stats.currentStreak >= 30
    case Streak100 => stats.currentStreak >= 100
    case Completions100 => stats.totalCompletions >= 100
  }

  /** The badge types of a list of catalog entries, in order. */
  function TypesOf(defs: seq<BadgeDefinition>): (r: seq<BadgeType>)
    ensures |r| == |defs|
    ensures forall i :: 0 <= i < |defs| ==> r[i] == defs[i].badgeType
  {
    if defs == [] then [] else [defs[0].badgeType] + TypesOf(defs[1..])
  }

  /** The catalog lists six entries of six distinct types with distinct tags. */
  lemma CatalogTypesDistinct()
    ensures |BadgeDefinitions| == 6
    ensures forall i, j :: 0 <= i < j < 6 ==>
              BadgeDefinitions[i].badgeType != BadgeDefinitions[j].badgeType
              && Tag(BadgeDefinitions[i].badgeType) != Tag(BadgeDefinitions[j].badgeType)
  {
  }

  lemma CatalogTypesListed()
    ensures TypesOf(BadgeDefinitions) == [FirstHabit, Streak7, Streak30, Streak100, Habits5, Completions100]
  {
    var types := TypesOf(BadgeDefinitions);
    assert |types| == 6;
    forall i | 0 <= i < 6
      ensures types[i] == [FirstHabit, Streak7, Streak30, Streak100, Habits5, Completions100][i]
    {
      assert types[i] == BadgeDefinitions[i].badgeType;
    }
  }

  /** Every badge type has a catalog entry. */
  lemma CatalogCoversTypes()
    ensures forall t :: t in TypesOf(BadgeDefinitions)
  {
    var types := TypesOf(BadgeDefinitions);
    CatalogTypesListed();
    forall t ensures t in types {
      match t
      case FirstHabit => assert types[0] == t;
      case Streak7 => assert types[1] == t;
      case Streak30 => assert types[2] == t;
      case Streak100 => assert types[3] == t;
      case Habits5 => assert types[4] == t;
      case Completions100 => assert types[5] == t;
    }
  }

  /** The checks test every badge type, each once: as many checks as catalog
      entries, no type twice. */
  lemma CheckOrderCoversTypes()
    ensures |CheckOrder| == |BadgeDefinitions|
    ensures forall t :: t in CheckOrder
    ensures forall i, j :: 0 <= i < j < |CheckOrder| ==> CheckOrder[i] != CheckOrder[j]
  {
    forall t ensures t in CheckOrder {
      match t
      case FirstHabit => assert CheckOrder[0] == t;
      case Habits5 => assert CheckOrder[1] == t;
      case Streak7 => assert CheckOrder[2] == t;
      case Streak30 => assert CheckOrder[3] == t;
      case Streak100 => assert CheckOrder[4] == t;
      case Completions100 => assert CheckOrder[5] == t;
    }
  }

  /** Each catalog entry's requirement is the threshold its check uses on the
      snapshot field it is gated on. */
  lemma CatalogRequirementsAreThresholds(stats: Snapshot)
    ensures forall i :: 0 <= i < |BadgeDefinitions| ==>
              (ThresholdMet(stats, BadgeDefinitions[i].badgeType) <==>
               GatedValue(stats, BadgeDefinitions[i].badgeType) >= BadgeDefinitions[i].requirement)
  {
  }

  // ---------------------------------------------------------------------
  // Awards

  datatype Badge = Badge(
    id: Id,
    userId: Id,
    badgeType: BadgeType,
    earnedAt: int,
    habitId: Option<Id>)

  /** `hasBadge`: the scan of `badges.some`, which holds exactly when some
      badge in the list has type `t`. */
  predicate HasBadge(bs: seq<Badge>, t: BadgeType): (b: bool)
    ensures b <==> exists x :: x in bs && x.badgeType == t
  {
    if bs == [] then false
    else
      assert forall x :: x in bs <==> x == bs[0] || x in bs[1..];
      bs[0].badgeType == t || HasBadge(bs[1..], t)
  }

  /** At most one badge of each type. */
  ghost predicate OnePerType(bs: seq<Badge>) {
    forall i, j :: 0 <= i < j < |bs| ==> bs[i].badgeType != bs[j].badgeType
  }

  /** The list after `awardBadge`: unchanged without a user, when a badge of
      that type is held, or when the insert fails; otherwise the stored badge
      in front. */
  function Awarded(bs: seq<Badge>, user: Option<Id>, t: BadgeType, habitId: Option<Id>,
                   storeOk: bool, newId: Id, now: int): (r: seq<Badge>)
    ensures |bs| <= |r| <= |bs| + 1 && r[|r| - |bs|..] == bs
    ensures r != bs <==> user.Some? && !HasBadge(bs, t) && storeOk
    ensures r != bs ==> r[0].badgeType == t && r[0].id == newId && r[0].userId == user.value
                        && r[0].habitId == StoredHabitId(habitId)
  {
    if user.None? || HasBadge(bs, t) || !storeOk then bs
    else [Badge(newId, user.value, t, now, StoredHabitId(habitId))] + bs
  }

  /** The habit column an insert writes: `habitId || null`, so an absent or
      empty habit identity is stored as no habit. */
  function StoredHabitId(habitId: Option<Id>): (r: Option<Id>)
    ensures r.Some? <==> habitId.Some? && habitId.value != ""
    ensures r.Some? ==> r == habitId
  {
    if habitId.Some? && habitId.value != "" then habitId else None
  }

  /** One threshold check of `checkAndAwardBadges`. */
  function CheckOne(bs: seq<Badge>, stats: Snapshot, user: Option<Id>, t: BadgeType,
                    storeOk: BadgeType -> bool, newId: BadgeType -> Id, now: int): seq<Badge> {
    if ThresholdMet(stats, t) && !HasBadge(bs, t) then Awarded(bs, user, t, None, storeOk(t), newId(t), now)
    else bs
  }

  /** The order in which `checkAndAwardBadges` tests the thresholds. */
  const CheckOrder: seq<BadgeType> := [FirstHabit, Habits5, Streak7, Streak30, Streak100, Completions100]

  /** The checks of `order`, one after another; `storeOk(t)` and `newId(t)`
      are the outcome and identity of the store call that awarding `t` makes. */
  function CheckAll(bs: seq<Badge>, stats: Snapshot, user: Option<Id>, order: seq<BadgeType>,
                    storeOk: BadgeType -> bool, newId: BadgeType -> Id, now: int): seq<Badge>
    decreases |order|
  {
    if order == [] then bs
    else CheckAll(CheckOne(bs, stats, user, order[0], storeOk, newId, now), stats, user, order[1..], storeOk, newId, now)
  }

  /** Six successive checks in the order of `CheckOrder` are `CheckAll` over it. */
  lemma CheckOrderSteps(b0: seq<Badge>, b1: seq<Badge>, b2: seq<Badge>, b3: seq<Badge>,
                        b4: seq<Badge>, b5: seq<Badge>, b6: seq<Badge>,
                        stats: Snapshot, user: Option<Id>,
                        storeOk: BadgeType -> bool, newId: BadgeType -> Id, now: int)
    requires b1 == CheckOne(b0, stats, user, FirstHabit, storeOk, newId, now)
    requires b2 == CheckOne(b1, stats, user, Habits5, storeOk, newId, now)
    requires b3 == CheckOne(b2, stats, user, Streak7, storeOk, newId, now)
    requires b4 == CheckOne(b3, stats, user, Streak30, storeOk, newId, now)
    requires b5 == CheckOne(b4, stats, user, Streak100, storeOk, newId, now)
    requires b6 == CheckOne(b5, stats, user, Completions100, storeOk, newId, now)
    ensures b6 == CheckAll(b0, stats, user, CheckOrder, storeOk, newId, now)
  {
    var order := CheckOrder;
    assert order[1..] == [Habits5, Streak7, Streak30, Streak100, Completions100];
    assert order[1..][1..] == [Streak7, Streak30, Streak100, Completions100];
    assert order[1..][1..][1..] == [Streak30, Streak100, Completions100];
    assert order[1..][1..][1..][1..] == [Streak100, Completions100];
    assert order[1..][1..][1..][1..][1..] == [Completions100];
    assert order[1..][1..][1..][1..][1..][1..] == [];
  }

  /** An award keeps at most one badge per type, never drops a badge, and
      afterwards the type is held exactly when it was, or the award went through. */
  lemma AwardProperties(bs: seq<Badge>, user: Option<Id>, t: BadgeType, habitId: Option<Id>,
                        storeOk: bool, newId: Id, now: int)
    requires OnePerType(bs)
    ensures var r := Awarded(bs, user, t, habitId, storeOk, newId, now);
            && OnePerType(r)
            && (forall u :: HasBadge(r, u) <==> HasBadge(bs, u) || (u == t && user.Some? && storeOk))
  {
    var r := Awarded(bs, user, t, habitId, storeOk, newId, now);
    if r != bs {
      forall i, j | 0 <= i < j < |r| ensures r[i].badgeType != r[j].badgeType {
        if i == 0 { assert r[j] in bs; } else { assert r[i] == bs[i - 1] && r[j] == bs[j - 1]; }
      }
      assert r[0] in r;
      assert forall b :: b in r <==> b == r[0] || b in bs;
    }
  }

  /** One check adds the type it tests exactly when its threshold is met and
      the insert goes through; no other type changes. */
  lemma CheckOneHolds(bs: seq<Badge>, stats: Snapshot, user: Option<Id>, t: BadgeType,
                      storeOk: BadgeType -> bool, newId: BadgeType -> Id, now: int)
    requires OnePerType(bs)
    ensures var r := CheckOne(bs, stats, user, t, storeOk, newId, now);
            && OnePerType(r)
            && |bs| <= |r| && r[|r| - |bs|..] == bs
            && (forall u :: HasBadge(r, u) <==>
                  HasBadge(bs, u) || (u == t && user.Some? && ThresholdMet(stats, u) && storeOk(u)))
  {
    AwardProperties(bs, user, t, None, storeOk(t), newId(t), now);
  }

  /** The checks of `order` keep one badge per type and keep the earlier
      badges, in order, at the end of the list. */
  lemma {:induction false} CheckAllKeeps(bs: seq<Badge>, stats: Snapshot, user: Option<Id>, order: seq<BadgeType>,
                                         storeOk: BadgeType -> bool, newId: BadgeType -> Id, now: int)
    requires OnePerType(bs)
    ensures var r := CheckAll(bs, stats, user, order, storeOk, newId, now);
            && OnePerType(r)
            && |bs| <= |r| && r[|r| - |bs|..] == bs
    decreases |order|
  {
    if order != [] {
      var next := CheckOne(bs, stats, user, order[0], storeOk, newId, now);
      CheckOneHolds(bs, stats, user, order[0], storeOk, newId, now);
      CheckAllKeeps(next, stats, user, order[1..], storeOk, newId, now);
      var r := CheckAll(next, stats, user, order[1..], storeOk, newId, now);
      assert r[|r| - |bs|..] == r[|r| - |next|..][|next| - |bs|..];
    }
  }

  /** Which types are held after the checks of `order`. */
  lemma {:induction false} CheckAllHolds(bs: seq<Badge>, stats: Snapshot, user: Option<Id>, order: seq<BadgeType>,
                                         storeOk: BadgeType -> bool, newId: BadgeType -> Id, now: int)
    requires OnePerType(bs)
    ensures var r := CheckAll(bs, stats, user, order, storeOk, newId, now);
            forall u :: HasBadge(r, u) <==>
              HasBadge(bs, u) || (u in order && user.Some? && ThresholdMet(stats, u) && storeOk(u))
    decreases |order|
  {
    if order != [] {
      var t := order[0];
      var next := CheckOne(bs, stats, user, t, storeOk, newId, now);
      CheckOneHolds(bs, stats, user, t, storeOk, newId, now);
      CheckAllHolds(next, stats, user, order[1..], storeOk, newId, now);
      assert forall u :: u in order <==> u == t || u in order[1..];
    }
  }

  /** Checks over a list that already holds every type whose threshold is met
      change nothing. */
  lemma {:induction false} CheckAllHeld(bs: seq<Badge>, stats: Snapshot, user: Option<Id>, order: seq<BadgeType>,
                                        storeOk: BadgeType -> bool, newId: BadgeType -> Id, now: int)
    requires forall u :: u in order && ThresholdMet(stats, u) ==> HasBadge(bs, u)
    ensures CheckAll(bs, stats, user, order, storeOk, newId, now) == bs
    decreases |order|
  {
    if order != [] {
      assert order[0] in order;
      CheckAllHeld(bs, stats, user, order[1..], storeOk, newId, now);
    }
  }

  /** `checkAndAwardBadges` awards exactly the types whose threshold is met and
      which are not held yet (where a user is signed in and the insert succeeds). */
  lemma CheckAndAwardExactly(bs: seq<Badge>, stats: Snapshot, user: Option<Id>,
                             storeOk: BadgeType -> bool, newId: BadgeType -> Id, now: int)
    requires OnePerType(bs)
    ensures var r := CheckAll(bs, stats, user, CheckOrder, storeOk, newId, now);
            forall u :: HasBadge(r, u) && !HasBadge(bs, u) <==>
              !HasBadge(bs, u) && user.Some? && ThresholdMet(stats, u) && storeOk(u)
  {
    CheckAllHolds(bs, stats, user, CheckOrder, storeOk, newId, now);
    CheckOrderCoversTypes();
  }

  /** A second round of checks with the same snapshot adds nothing, once every
      insert of the first round went through (or there is no user). */
  lemma CheckAndAwardIdempotent(bs: seq<Badge>, stats: Snapshot, user: Option<Id>,
                                ok1: BadgeType -> bool, id1: BadgeType -> Id, now1: int,
                                ok2: BadgeType -> bool, id2: BadgeType -> Id, now2: int)
    requires OnePerType(bs)
    requires user.Some? ==> forall u :: ThresholdMet(stats, u) ==> ok1(u)
    ensures var once := CheckAll(bs, stats, user, CheckOrder, ok1, id1, now1);
            CheckAll(once, stats, user, CheckOrder, ok2, id2, now2) == once
  {
    var once := CheckAll(bs, stats, user, CheckOrder, ok1, id1, now1);
    CheckAllHolds(bs, stats, user, CheckOrder, ok1, id1, now1);
    if user.None? {
      assert forall u :: HasBadge(once, u) <==> HasBadge(bs, u);
      NoUserChecksNothing(once, stats, CheckOrder, ok2, id2, now2);
    } else {
      CheckAllHeld(once, stats, user, CheckOrder, ok2, id2, now2);
    }
  }

  /** Without a user no check changes the list. */
  lemma {:induction false} NoUserChecksNothing(bs: seq<Badge>, stats: Snapshot, order: seq<BadgeType>,
                                               storeOk: BadgeType -> bool, newId: BadgeType -> Id, now: int)
    ensures CheckAll(bs, stats, None, order, storeOk, newId, now) == bs
    decreases |order|
  {
    if order != [] {
      NoUserChecksNothing(bs, stats, order[1..], storeOk, newId, now);
    }
  }

  /** Six habits, 150 completions and a 31-day streak, with no badge yet and
      every insert succeeding: every badge except the 100-day streak. */
  lemma MilestoneScenario(user: Id, storeOk: BadgeType -> bool, newId: BadgeType -> Id, now: int)
    requires forall u :: storeOk(u)
    ensures var r := CheckAll([], Snapshot(6, 6, 150, 31, 31), Some(user), CheckOrder, storeOk, newId, now);
            && HasBadge(r, FirstHabit) && HasBadge(r, Habits5) && HasBadge(r, Streak7)
            && HasBadge(r, Streak30) && HasBadge(r, Completions100)
            && !HasBadge(r, Streak100)
  {
    var stats := Snapshot(6, 6, 150, 31, 31);
    CheckAndAwardExactly([], stats, Some(user), storeOk, newId, now);
    NothingHeld();
    MilestoneThresholds(stats);
  }

  lemma NothingHeld()
    ensures forall u :: !HasBadge([], u)
  {
  }

  lemma MilestoneThresholds(stats: Snapshot)
    requires stats == Snapshot(6, 6, 150, 31, 31)
    ensures forall u :: ThresholdMet(stats, u) <==> u != Streak100
  {
  }

  /** The checks of `order` as the hook's code runs them within one call:
      every threshold test and every award reads the list `snapshot` the call
      started from, and each successful award replaces the local list with
      the new badge in front of `snapshot`, so the last award wins.
      `current` is the local list so far. */
  function StaleCheckAll(snapshot: seq<Badge>, current: seq<Badge>, stats: Snapshot, user: Option<Id>,
                         order: seq<BadgeType>, storeOk: BadgeType -> bool, newId: BadgeType -> Id,
                         now: int): (r: seq<Badge>)
    decreases |order|
  {
    if order == [] then current
    else
      var t := order[0];
      var next := if ThresholdMet(stats, t) && !HasBadge(snapshot, t) && user.Some? && storeOk(t)
                  then Awarded(snapshot, user, t, None, storeOk(t), newId(t), now)
                  else current;
      StaleCheckAll(snapshot, next, stats, user, order[1..], storeOk, newId, now)
  }

  /** Within one call the local list ends either as it started or as the
      call's snapshot with one badge in front: the last award whose threshold
      was met, every earlier award of the call being overwritten. */
  lemma {:induction false} StaleLastAwardWins(snapshot: seq<Badge>, current: seq<Badge>, stats: Snapshot,
                                              user: Option<Id>, order: seq<BadgeType>,
                                              storeOk: BadgeType -> bool, newId: BadgeType -> Id, now: int)
    ensures var r := StaleCheckAll(snapshot, current, stats, user, order, storeOk, newId, now);
            r == current
            || (|r| == |snapshot| + 1 && r[1..] == snapshot
                && r[0].badgeType in order && ThresholdMet(stats, r[0].badgeType))
    decreases |order|
  {
    if order != [] {
      var t := order[0];
      var next := if ThresholdMet(stats, t) && !HasBadge(snapshot, t) && user.Some? && storeOk(t)
                  then Awarded(snapshot, user, t, None, storeOk(t), newId(t), now)
                  else current;
      StaleLastAwardWins(snapshot, next, stats, user, order[1..], storeOk, newId, now);
      var r := StaleCheckAll(snapshot, current, stats, user, order, storeOk, newId, now);
      assert r == StaleCheckAll(snapshot, next, stats, user, order[1..], storeOk, newId, now);
      if r != current && r == next {
        assert next[1..] == snapshot && next[0].badgeType == t;
      } else if r != current {
        assert r[0].badgeType in order[1..];
      }
    }
  }

  /** With five habits, no badge yet and both inserts succeeding, the store
      gains two badges but the hook's list, as the code updates it, ends with
      only the second: the first-habit badge is missing until the next fetch.
      The sequential update `CheckAll` keeps both (`CheckAndAwardExactly`). */
  lemma StaleUpdateLosesBadge(user: Id, storeOk: BadgeType -> bool, newId: BadgeType -> Id, now: int)
    requires forall u :: storeOk(u)
    ensures var stale := StaleCheckAll([], [], Snapshot(5, 5, 0, 0, 0), Some(user), CheckOrder, storeOk, newId, now);
            stale == [Badge(newId(Habits5), user, Habits5, now, None)] && !HasBadge(stale, FirstHabit)
  {
    var b := Badge(newId(Habits5), user, Habits5, now, None);
    StaleFirstTwo(user, storeOk, newId, now);
    StaleRest(b, user, storeOk, newId, now);
    OnlyTypeHeld(b, FirstHabit);
  }

  lemma StaleRest(b: Badge, user: Id, storeOk: BadgeType -> bool, newId: BadgeType -> Id, now: int)
    ensures StaleCheckAll([], [b], Snapshot(5, 5, 0, 0, 0), Some(user),
                          [Streak7, Streak30, Streak100, Completions100], storeOk, newId, now) == [b]
  {
    var rest := [Streak7, Streak30, Streak100, Completions100];
    assert forall t :: t in rest ==> !ThresholdMet(Snapshot(5, 5, 0, 0, 0), t);
    StaleNoneMet([], [b], Snapshot(5, 5, 0, 0, 0), Some(user), rest, storeOk, newId, now);
  }

  lemma OnlyTypeHeld(b: Badge, t: BadgeType)
    requires b.badgeType != t
    ensures !HasBadge([b], t)
  {
  }

  lemma StaleFirstTwo(user: Id, storeOk: BadgeType -> bool, newId: BadgeType -> Id, now: int)
    requires forall u :: storeOk(u)
    ensures StaleCheckAll([], [], Snapshot(5, 5, 0, 0, 0), Some(user), CheckOrder, storeOk, newId, now)
            == StaleCheckAll([], [Badge(newId(Habits5), user, Habits5, now, None)], Snapshot(5, 5, 0, 0, 0),
                             Some(user), [Streak7, Streak30, Streak100, Completions100], storeOk, newId, now)
  {
    var stats := Snapshot(5, 5, 0, 0, 0);
    var u := Some(user);
    var first := [Badge(newId(FirstHabit), user, FirstHabit, now, None)];
    var b := Badge(newId(Habits5), user, Habits5, now, None);
    var rest := [Streak7, Streak30, Streak100, Completions100];
    assert CheckOrder[1..] == [Habits5] + rest;
    assert ([Habits5] + rest)[1..] == rest;
    assert Awarded([], u, FirstHabit, None, true, newId(FirstHabit), now) == first;
    assert Awarded([], u, Habits5, None, true, newId(Habits5), now) == [b];
    assert StaleCheckAll([], [], stats, u, CheckOrder, storeOk, newId, now)
           == StaleCheckAll([], first, stats, u, [Habits5] + rest, storeOk, newId, now);
  }

  /** Checks whose thresholds are all unmet leave the local list alone. */
  lemma {:induction false} StaleNoneMet(snapshot: seq<Badge>, current: seq<Badge>, stats: Snapshot,
                                        user: Option<Id>, order: seq<BadgeType>,
                                        storeOk: BadgeType -> bool, newId: BadgeType -> Id, now: int)
    requires forall t :: t in order ==> !ThresholdMet(stats, t)
    ensures StaleCheckAll(snapshot, current, stats, user, order, storeOk, newId, now) == current
    decreases |order|
  {
    if order != [] {
      assert order[0] in order;
      StaleNoneMet(snapshot, current, stats, user, order[1..], storeOk, newId, now);
    }
  }

  // ---------------------------------------------------------------------
  // The hook's state

  /** The badges hook's state: the badges the user holds. */
  class BadgeCollection {
    var badges: seq<Badge>

    ghost predicate Valid()
      reads this
    {
      OnePerType(badges)
    }

    constructor ()
      ensures Valid() && badges == []
    {
      badges := [];
    }

    /** `awardBadge`: a no-op without a user or when the type is already held;
        otherwise one insert, which on success puts the new badge in front and
        returns it. */
    method AwardBadge(user: Option<Id>, t: BadgeType, habitId: Option<Id>,
                      storeOk: bool, newId: Id, now: int) returns (r: Option<Badge>)
      requires Valid()
      modifies this
      ensures Valid()
      ensures badges == Awarded(old(badges), user, t, habitId, storeOk, newId, now)
      ensures r.Some? <==> user.Some? && !HasBadge(old(badges), t) && storeOk
      ensures r.Some? ==> r.value.badgeType == t && badges == [r.value] + old(badges)
      ensures user.Some? && storeOk ==> HasBadge(badges, t)
    {
      AwardProperties(badges, user, t, habitId, storeOk, newId, now);
      if user.None? {
        return None;
      }
      if HasBadge(badges, t) {
        return None;
      }
      if storeOk {
        var data := Badge(newId, user.value, t, now, StoredHabitId(habitId));
        badges := [data] + badges;
        return Some(data);
      }
      return None;
    }

    /** One threshold test of `checkAndAwardBadges`: award `t` when `met`,
        the source's comparison for `t`, holds and `t` is not held yet. */
    method AwardIfMet(met: bool, stats: Snapshot, user: Option<Id>, t: BadgeType,
                      storeOk: BadgeType -> bool, newId: BadgeType -> Id, now: int)
      requires Valid()
      requires met == ThresholdMet(stats, t)
      modifies this
      ensures Valid()
      ensures badges == CheckOne(old(badges), stats, user, t, storeOk, newId, now)
    {
      if met && !HasBadge(badges, t) {
        var _ := AwardBadge(user, t, None, storeOk(t), newId(t), now);
      }
    }

    /** `checkAndAwardBadges`: the six threshold checks in the source's order,
        each awarding its type when the threshold is met and the type is not held. */
    method CheckAndAwardBadges(user: Option<Id>, stats: Snapshot,
                               storeOk: BadgeType -> bool, newId: BadgeType -> Id, now: int)
      requires Valid()
      modifies this
      ensures Valid()
      ensures badges == CheckAll(old(badges), stats, user, CheckOrder, storeOk, newId, now)
    {
      ghost var b0 := badges;
      AwardIfMet(stats.totalHabits >= 1, stats, user, FirstHabit, storeOk, newId, now);
      ghost var b1 := badges;
      AwardIfMet(stats.totalHabits >= 5, stats, user, Habits5, storeOk, newId, now);
      ghost var b2 := badges;
      AwardIfMet(stats.currentStreak >= 7, stats, user, Streak7, storeOk, newId, now);
      ghost var b3 := badges;
      AwardIfMet(stats.currentStreak >= 30, stats, user, Streak30, storeOk, newId, now);
      ghost var b4 := badges;
      AwardIfMet(stats.currentStreak >= 100, stats, user, Streak100, storeOk, newId, now);
      ghost var b5 := badges;
      AwardIfMet(stats.totalCompletions >= 100, stats, user, Completions100, storeOk, newId, now);
      CheckOrderSteps(b0, b1, b2, b3, b4, b5, badges, stats, user, storeOk, newId, now);
      CheckAllKeeps(b0, stats, user, CheckOrder, storeOk, newId, now);
    }
  }
}

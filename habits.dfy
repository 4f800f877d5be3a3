/** The habits hook: the signed-in user's active habits, as fetched from the
    store (active only, in `order_index` order), and the create, update and
    soft-delete operations that keep the local list in step with the store. */
module Habits {
  import opened Common
  import opened Lists

  datatype Frequency = Daily | Weekly

  datatype Habit = Habit(
    id: Id,
    userId: Id,
    name: string,
    description: string,
    icon: string,
    color: string,
    frequency: Frequency,
    targetDays: int,
    isActive: bool,
    orderIndex: int,
    createdAt: int)

  /** What a caller of `createHabit` supplies: every field except the
      identity, the owner and the creation time. */
  datatype HabitInput = HabitInput(
    name: string,
    description: string,
    icon: string,
    color: string,
    frequency: Frequency,
    targetDays: int,
    isActive: bool,
    orderIndex: int)

  /** The row the store returns for an insert of `input` by `userId`. */
  function NewHabit(input: HabitInput, userId: Id, newId: Id, now: int): Habit {
    Habit(newId, userId, input.name, input.description, input.icon, input.color,
          input.frequency, input.targetDays, input.isActive, input.orderIndex, now)
  }

  /** `createHabit`'s answer: nothing without a user, null on a store error,
      the stored row on success. */
  datatype CreateResult = NoUser | StoreError | Created(habit: Habit)

  // ---------------------------------------------------------------------
  // The fetch query: `.eq('user_id', u).eq('is_active', true).order('order_index')`

  function ActiveOfUser(table: seq<Habit>, userId: Id): (r: seq<Habit>)
    ensures forall h :: h in r <==> h in table && h.userId == userId && h.isActive
    ensures |r| <= |table|
  {
    if table == [] then []
    else
      assert forall h :: h in table <==> h == table[0] || h in table[1..];
      (if table[0].userId == userId && table[0].isActive then [table[0]] else [])
        + ActiveOfUser(table[1..], userId)
  }

  predicate OrderedByIndex(hs: seq<Habit>) {
    forall i, j :: 0 <= i < j < |hs| ==> hs[i].orderIndex <= hs[j].orderIndex
  }

  function InsertByIndex(x: Habit, hs: seq<Habit>): (r: seq<Habit>)
    requires OrderedByIndex(hs)
    ensures OrderedByIndex(r)
    ensures multiset(r) == multiset(hs) + multiset{x}
  {
    if hs == [] || x.orderIndex <= hs[0].orderIndex then
      ConsOrdered(x, hs);
      [x] + hs
    else
      var t := InsertByIndex(x, hs[1..]);
      InsertByIndexHead(x, hs, t);
      [hs[0]] + t
  }

  /** The facts about `[hs[0]] + t` that the second branch of `InsertByIndex` needs. */
  lemma InsertByIndexHead(x: Habit, hs: seq<Habit>, t: seq<Habit>)
    requires hs != [] && OrderedByIndex(hs) && hs[0].orderIndex < x.orderIndex
    requires OrderedByIndex(t) && multiset(t) == multiset(hs[1..]) + multiset{x}
    ensures OrderedByIndex([hs[0]] + t)
    ensures multiset([hs[0]] + t) == multiset(hs) + multiset{x}
  {
    assert hs == [hs[0]] + hs[1..];
    forall y | y in t ensures hs[0].orderIndex <= y.orderIndex {
      assert y in multiset(t);
      if y != x { assert y in hs[1..]; }
    }
    ConsOrdered(hs[0], t);
  }

  lemma ConsOrdered(x: Habit, hs: seq<Habit>)
    requires OrderedByIndex(hs)
    requires forall y :: y in hs ==> x.orderIndex <= y.orderIndex
    ensures OrderedByIndex([x] + hs)
  {
    var r := [x] + hs;
    forall i, j | 0 <= i < j < |r| ensures r[i].orderIndex <= r[j].orderIndex {
      if i > 0 { assert r[i] == hs[i - 1] && r[j] == hs[j - 1]; } else { assert r[j] in hs; }
    }
  }

  /** The store's ordering by `order_index`, ascending. */
  function SortByIndex(hs: seq<Habit>): (r: seq<Habit>)
    ensures OrderedByIndex(r)
    ensures multiset(r) == multiset(hs)
  {
    if hs == [] then []
    else
      assert hs == [hs[0]] + hs[1..];
      InsertByIndex(hs[0], SortByIndex(hs[1..]))
  }

  /** Each of the user's active rows is kept as often as it occurs in the
      table; no other row is kept. */
  lemma {:induction false} ActiveOfUserCount(table: seq<Habit>, userId: Id, h: Habit)
    ensures multiset(ActiveOfUser(table, userId))[h]
            == if h.userId == userId && h.isActive then multiset(table)[h] else 0
  {
    if table != [] {
      ActiveOfUserCount(table[1..], userId, h);
      assert table == [table[0]] + table[1..];
      assert multiset(table) == multiset{table[0]} + multiset(table[1..]);
      var rest := ActiveOfUser(table[1..], userId);
      if table[0].userId == userId && table[0].isActive {
        assert multiset(ActiveOfUser(table, userId)) == multiset{table[0]} + multiset(rest);
      } else {
        assert ActiveOfUser(table, userId) == rest;
      }
    }
  }

  /** The rows `fetchHabits` receives from the store's table: only the user's
      active rows, in ascending `order_index`. */
  function FetchQuery(table: seq<Habit>, userId: Id): (r: seq<Habit>)
    ensures OrderedByIndex(r)
    ensures forall h :: h in r ==> h.userId == userId && h.isActive
  {
    var a := ActiveOfUser(table, userId);
    var r := SortByIndex(a);
    assert forall h :: h in r ==> h in multiset(a);
    r
  }

  /** The fetch contract: exactly the user's active rows, each as often as in
      the table, in ascending `order_index`. */
  lemma FetchContract(table: seq<Habit>, userId: Id)
    ensures var r := FetchQuery(table, userId);
            && OrderedByIndex(r)
            && (forall h :: h in r <==> h in table && h.userId == userId && h.isActive)
            && (forall h: Habit :: multiset(r)[h] == if h.userId == userId && h.isActive then multiset(table)[h] else 0)
  {
    var r := FetchQuery(table, userId);
    var a := ActiveOfUser(table, userId);
    assert multiset(r) == multiset(a);
    assert forall h :: h in r <==> h in multiset(r);
    assert forall h :: h in a <==> h in multiset(a);
    forall h: Habit ensures multiset(r)[h] == if h.userId == userId && h.isActive then multiset(table)[h] else 0 {
      ActiveOfUserCount(table, userId, h);
    }
  }

  // ---------------------------------------------------------------------
  // Local updates

  /** `habits.map(h => h.id === id ? row : h)`. */
  function ReplaceById(hs: seq<Habit>, id: Id, row: Habit): (r: seq<Habit>)
    ensures |r| == |hs|
    ensures forall i :: 0 <= i < |hs| ==> r[i] == if hs[i].id == id then row else hs[i]
  {
    if hs == [] then []
    else [if hs[0].id == id then row else hs[0]] + ReplaceById(hs[1..], id, row)
  }

  /** `habits.filter(h => h.id !== id)`. */
  function WithoutHabit(hs: seq<Habit>, id: Id): (r: seq<Habit>)
    ensures forall h :: h in r <==> h in hs && h.id != id
    ensures |r| <= |hs|
  {
    if hs == [] then []
    else
      assert forall h :: h in hs <==> h == hs[0] || h in hs[1..];
      (if hs[0].id == id then [] else [hs[0]]) + WithoutHabit(hs[1..], id)
  }

  /** The store side of `deleteHabit`: `update({ is_active: false }).eq('id', id)`. */
  function SoftDeleted(table: seq<Habit>, id: Id): (r: seq<Habit>)
    ensures |r| == |table|
    ensures forall i :: 0 <= i < |table| ==>
              r[i] == if table[i].id == id then table[i].(isActive := false) else table[i]
  {
    if table == [] then []
    else [if table[0].id == id then table[0].(isActive := false) else table[0]]
           + SoftDeleted(table[1..], id)
  }

  /** Removing by identity changes nothing when the identity is absent, and
      otherwise drops exactly the matching entries, every other habit keeping
      its number of occurrences. */
  lemma WithoutHabitKeepsOthers(hs: seq<Habit>, id: Id)
    ensures (forall h :: h in hs ==> h.id != id) ==> WithoutHabit(hs, id) == hs
    ensures forall h :: multiset(WithoutHabit(hs, id))[h] == if h.id == id then 0 else multiset(hs)[h]
  {
    WithoutAbsentHabit(hs, id);
    forall h ensures multiset(WithoutHabit(hs, id))[h] == if h.id == id then 0 else multiset(hs)[h] {
      WithoutHabitCount(hs, id, h);
    }
  }

  lemma {:induction false} WithoutHabitCount(hs: seq<Habit>, id: Id, h: Habit)
    ensures multiset(WithoutHabit(hs, id))[h] == if h.id == id then 0 else multiset(hs)[h]
  {
    if hs != [] {
      WithoutHabitCount(hs[1..], id, h);
      var rest := WithoutHabit(hs[1..], id);
      assert hs == [hs[0]] + hs[1..];
      assert multiset(hs) == multiset{hs[0]} + multiset(hs[1..]);
      if hs[0].id == id {
        assert WithoutHabit(hs, id) == rest;
      } else {
        assert WithoutHabit(hs, id) == [hs[0]] + rest;
        assert multiset(WithoutHabit(hs, id)) == multiset{hs[0]} + multiset(rest);
      }
    }
  }

  /** The only entry with its identity is removed and all others stay, in
      order. */
  lemma {:induction false} WithoutUniqueHabit(hs: seq<Habit>, k: nat)
    requires k < |hs|
    requires forall j :: 0 <= j < |hs| && j != k ==> hs[j].id != hs[k].id
    ensures WithoutHabit(hs, hs[k].id) == hs[..k] + hs[k + 1..]
  {
    var t := hs[1..];
    if k == 0 {
      forall h | h in t ensures h.id != hs[0].id {
        var j :| 0 <= j < |t| && t[j] == h;
        assert h == hs[j + 1];
      }
      WithoutHabitUnfold(hs, hs[0].id);
      WithoutAbsentHabit(t, hs[0].id);
    } else {
      forall j | 0 <= j < |t| && j != k - 1 ensures t[j].id != t[k - 1].id {
        assert t[j] == hs[j + 1] && t[k - 1] == hs[k];
      }
      WithoutUniqueHabit(t, k - 1);
      WithoutLaterHabit(hs, k, WithoutHabit(t, hs[k].id));
    }
  }

  lemma WithoutLaterHabit(hs: seq<Habit>, k: nat, rest: seq<Habit>)
    requires 0 < k < |hs| && hs[0].id != hs[k].id
    requires rest == WithoutHabit(hs[1..], hs[k].id) && rest == hs[1..][..k - 1] + hs[1..][k..]
    ensures WithoutHabit(hs, hs[k].id) == hs[..k] + hs[k + 1..]
  {
    WithoutHabitUnfold(hs, hs[k].id);
    SpliceCons(hs, k);
  }

  lemma WithoutHabitUnfold(hs: seq<Habit>, id: Id)
    requires hs != []
    ensures WithoutHabit(hs, id) == (if hs[0].id == id then [] else [hs[0]]) + WithoutHabit(hs[1..], id)
  {
  }

  lemma {:induction false} WithoutAbsentHabit(hs: seq<Habit>, id: Id)
    ensures (forall h :: h in hs ==> h.id != id) ==> WithoutHabit(hs, id) == hs
  {
    if hs != [] && forall h :: h in hs ==> h.id != id {
      assert hs[0] in hs;
      assert forall h :: h in hs[1..] ==> h in hs;
      WithoutAbsentHabit(hs[1..], id);
      assert hs == [hs[0]] + hs[1..];
    }
  }

  /** The store's soft delete and the local removal agree: a refetch after the
      soft delete holds the same habits as the local list after the removal. */
  lemma SoftDeleteMatchesLocalRemoval(table: seq<Habit>, userId: Id, id: Id)
    ensures multiset(FetchQuery(SoftDeleted(table, id), userId))
            == multiset(WithoutHabit(FetchQuery(table, userId), id))
  {
    var a := ActiveOfUser(table, userId);
    var s := SortByIndex(a);
    ActiveAfterSoftDelete(table, userId, id);
    assert FetchQuery(SoftDeleted(table, id), userId) == SortByIndex(WithoutHabit(a, id));
    SameHabitsWithout(a, s, id);
  }

  lemma SameHabitsWithout(x: seq<Habit>, y: seq<Habit>, id: Id)
    requires multiset(x) == multiset(y)
    ensures multiset(WithoutHabit(x, id)) == multiset(WithoutHabit(y, id))
  {
    WithoutHabitKeepsOthers(x, id);
    WithoutHabitKeepsOthers(y, id);
    forall h ensures multiset(WithoutHabit(x, id))[h] == multiset(WithoutHabit(y, id))[h] {
    }
  }

  /** After the soft delete no fetched habit has the deleted identity. */
  lemma SoftDeletedNotFetched(table: seq<Habit>, userId: Id, id: Id)
    ensures forall h :: h in FetchQuery(SoftDeleted(table, id), userId) ==> h.id != id
  {
    var a := ActiveOfUser(table, userId);
    var r := FetchQuery(SoftDeleted(table, id), userId);
    ActiveAfterSoftDelete(table, userId, id);
    forall h | h in r ensures h.id != id {
      assert h in multiset(r);
      assert h in WithoutHabit(a, id);
    }
  }

  lemma {:induction false} ActiveAfterSoftDelete(table: seq<Habit>, userId: Id, id: Id)
    ensures ActiveOfUser(SoftDeleted(table, id), userId) == WithoutHabit(ActiveOfUser(table, userId), id)
  {
    if table != [] {
      ActiveAfterSoftDelete(table[1..], userId, id);
      var t := SoftDeleted(table, id);
      assert t[1..] == SoftDeleted(table[1..], id);
      var a := ActiveOfUser(table, userId);
      var rest := ActiveOfUser(table[1..], userId);
      if table[0].userId == userId && table[0].isActive {
        assert a == [table[0]] + rest;
        assert a[0] == table[0] && a[1..] == rest;
      } else {
        assert a == rest;
      }
    }
  }

  // ---------------------------------------------------------------------
  // The hook's state

  /** The habits hook's state: the local list of habits. */
  class HabitList {
    var habits: seq<Habit>

    constructor ()
      ensures habits == []
    {
      habits := [];
    }

    /** `fetchHabits`: with a user and a successful query the list becomes the
        query's rows; otherwise it stays. */
    method FetchHabits(user: Option<Id>, table: seq<Habit>, storeOk: bool)
      modifies this
      ensures user.Some? && storeOk ==> habits == FetchQuery(table, user.value)
      ensures user.None? || !storeOk ==> habits == old(habits)
    {
      if user.None? {
        return;
      }
      if storeOk {
        habits := FetchQuery(table, user.value);
      }
    }

    /** `createHabit`: on success the stored row is appended at the end. */
    method CreateHabit(user: Option<Id>, input: HabitInput, storeOk: bool, newId: Id, now: int)
      returns (r: CreateResult)
      modifies this
      ensures user.None? ==> r == NoUser && habits == old(habits)
      ensures user.Some? && !storeOk ==> r == StoreError && habits == old(habits)
      ensures user.Some? && storeOk ==>
                && r == Created(NewHabit(input, user.value, newId, now))
                && habits == old(habits) + [r.habit]
                && |habits| == |old(habits)| + 1
                && habits[..|old(habits)|] == old(habits)
    {
      if user.None? {
        return NoUser;
      }
      if storeOk {
        var data := NewHabit(input, user.value, newId, now);
        habits := habits + [data];
        return Created(data);
      }
      return StoreError;
    }

    /** `updateHabit`: `reply` is the row the store returns after applying the
        patch (none on an error); entries with identity `id` are replaced by it,
        all others and the length stay. A patch may change the identity, and
        then the replaced entries carry the new one. */
    method UpdateHabit(id: Id, reply: Option<Habit>)
      modifies this
      ensures reply.None? ==> habits == old(habits)
      ensures reply.Some? ==> habits == ReplaceById(old(habits), id, reply.value)
      ensures |habits| == |old(habits)|
      ensures forall i :: 0 <= i < |habits| ==>
                habits[i].id == if reply.Some? && old(habits)[i].id == id then reply.value.id else old(habits)[i].id
    {
      if reply.Some? {
        habits := ReplaceById(habits, id, reply.value);
      }
    }

    /** `deleteHabit`: the store soft-deletes (see `SoftDeleted`); on success
        every local entry with that identity is removed. */
    method DeleteHabit(id: Id, storeOk: bool)
      modifies this
      ensures storeOk ==> habits == WithoutHabit(old(habits), id)
      ensures !storeOk ==> habits == old(habits)
      ensures forall h :: h in habits <==> h in old(habits) && (storeOk ==> h.id != id)
    {
      if storeOk {
        habits := WithoutHabit(habits, id);
      }
    }
  }
}

/** The two list primitives the streak calculations lean on: the
    de-duplication performed by `[...new Set(xs)]` and the numeric
    sort performed by `Array.prototype.sort` with a date comparator. */
module Lists {

  /** The values occurring in a list, as a set. */
  ghost function Elems(s: seq<int>): (r: set<int>)
    ensures forall x :: x in r <==> x in s
  {
    set x | x in s
  }

  /** No value occurs twice. */
  predicate NoDup(s: seq<int>) {
    forall i, j :: 0 <= i < j < |s| ==> s[i] != s[j]
  }

  /** `x` may stand before `y` in the chosen direction. */
  predicate InOrder(x: int, y: int, descending: bool) {
    if descending then x >= y else x <= y
  }

  predicate SortedBy(s: seq<int>, descending: bool) {
    forall i, j :: 0 <= i < j < |s| ==> InOrder(s[i], s[j], descending)
  }

  /** Strictly ascending (`descending == false`) or strictly descending. */
  predicate StrictlySortedBy(s: seq<int>, descending: bool) {
    forall i, j :: 0 <= i < j < |s| ==> s[i] != s[j] && InOrder(s[i], s[j], descending)
  }

  /** `[...new Set(s)]`: the first occurrence of every value, in order of
      first appearance. */
  function Distinct(s: seq<int>): (r: seq<int>)
    ensures NoDup(r)
    ensures forall x :: x in r <==> x in s
    ensures |r| <= |s|
  {
    if s == [] then []
    else
      var p := Distinct(s[..|s| - 1]);
      assert forall x :: x in s <==> x in s[..|s| - 1] || x == s[|s| - 1];
      if s[|s| - 1] in p then p else p + [s[|s| - 1]]
  }

  /** Inserts `x` into a sorted list, before the first element it may precede. */
  function Insert(x: int, s: seq<int>, descending: bool): (r: seq<int>)
    requires SortedBy(s, descending)
    ensures SortedBy(r, descending)
    ensures multiset(r) == multiset(s) + multiset{x}
    ensures NoDup(s) && x !in s ==> NoDup(r)
  {
    if s == [] || InOrder(x, s[0], descending) then
      ConsSorted(x, s, descending);
      ConsNoDup(x, s);
      [x] + s
    else
      var t := Insert(x, s[1..], descending);
      assert s == [s[0]] + s[1..];
      InsertHead(x, s, t, descending);
      [s[0]] + t
  }

  /** The facts about `[s[0]] + t` that the second branch of `Insert` needs. */
  lemma InsertHead(x: int, s: seq<int>, t: seq<int>, descending: bool)
    requires s != [] && SortedBy(s, descending) && !InOrder(x, s[0], descending)
    requires SortedBy(t, descending) && multiset(t) == multiset(s[1..]) + multiset{x}
    requires NoDup(s) && x !in s ==> NoDup(t)
    ensures SortedBy([s[0]] + t, descending)
    ensures NoDup(s) && x !in s ==> NoDup([s[0]] + t)
  {
    forall y | y in t ensures InOrder(s[0], y, descending) && (y == x || y in s[1..]) {
      assert y in multiset(t);
    }
    ConsSorted(s[0], t, descending);
    ConsNoDup(s[0], t);
  }

  lemma ConsSorted(a: int, t: seq<int>, descending: bool)
    requires SortedBy(t, descending)
    requires forall y :: y in t ==> InOrder(a, y, descending)
    ensures SortedBy([a] + t, descending)
  {
    var r := [a] + t;
    forall i, j | 0 <= i < j < |r| ensures InOrder(r[i], r[j], descending) {
      if i > 0 { assert r[i] == t[i - 1] && r[j] == t[j - 1]; } else { assert r[j] in t; }
    }
  }

  lemma ConsNoDup(a: int, t: seq<int>)
    ensures NoDup(t) && a !in t ==> NoDup([a] + t)
  {
    var r := [a] + t;
    if NoDup(t) && a !in t {
      forall i, j | 0 <= i < j < |r| ensures r[i] != r[j] {
        if i > 0 { assert r[i] == t[i - 1] && r[j] == t[j - 1]; } else { assert r[j] in t; }
      }
    }
  }

  /** The sort: a permutation of `s`, in the chosen direction; a list without
      repeated values comes out strictly sorted. */
  function Sort(s: seq<int>, descending: bool): (r: seq<int>)
    ensures SortedBy(r, descending)
    ensures multiset(r) == multiset(s)
    ensures NoDup(s) ==> StrictlySortedBy(r, descending)
  {
    if s == [] then []
    else
      var t := Sort(s[1..], descending);
      SortTail(s, t);
      var r := Insert(s[0], t, descending);
      SortedNoDupIsStrict(r, descending);
      r
  }

  /** What `Sort` needs about the sorted tail `t` of `s`. */
  lemma SortTail(s: seq<int>, t: seq<int>)
    requires s != [] && multiset(t) == multiset(s[1..])
    requires NoDup(s[1..]) ==> NoDup(t)
    ensures multiset(t) + multiset{s[0]} == multiset(s)
    ensures NoDup(s) ==> NoDup(t) && s[0] !in t
  {
    assert s == [s[0]] + s[1..];
    TailNoDup(s);
    if s[0] in t { assert s[0] in multiset(t); }
  }

  lemma TailNoDup(s: seq<int>)
    requires s != []
    ensures NoDup(s) ==> NoDup(s[1..]) && s[0] !in s[1..]
  {
    if NoDup(s) {
      forall i, j | 0 <= i < j < |s| - 1 ensures s[1..][i] != s[1..][j] { assert s[i + 1] != s[j + 1]; }
      forall k | 0 <= k < |s| - 1 ensures s[1..][k] != s[0] { assert s[0] != s[k + 1]; }
    }
  }

  lemma SortedNoDupIsStrict(r: seq<int>, descending: bool)
    requires SortedBy(r, descending)
    ensures NoDup(r) ==> StrictlySortedBy(r, descending)
  {
  }

  /** Sorting keeps exactly the values of its input. */
  lemma SortElems(s: seq<int>, descending: bool)
    ensures forall x :: x in Sort(s, descending) <==> x in s
    ensures |Sort(s, descending)| == |s|
  {
    var r := Sort(s, descending);
    assert forall x :: x in r <==> x in multiset(r);
    assert forall x :: x in s <==> x in multiset(s);
    assert |r| == |multiset(r)|;
  }

  /** A list holds no more distinct values than entries. */
  lemma {:induction false} ElemsBound(s: seq<int>)
    ensures |Elems(s)| <= |s|
  {
    if s != [] {
      ElemsBound(s[1..]);
      assert Elems(s) == Elems(s[1..]) + {s[0]};
    }
  }

  /** The largest value of a non-empty list. */
  function Latest(s: seq<int>): (m: int)
    requires s != []
    ensures m in s
    ensures forall x :: x in s ==> x <= m
  {
    if |s| == 1 then s[0]
    else
      var m := Latest(s[1..]);
      assert forall x :: x in s ==> x == s[0] || x in s[1..];
      if s[0] >= m then s[0] else m
  }

  /** Putting the head back in front of a splice is the same splice of the whole. */
  lemma SpliceCons<T>(cs: seq<T>, k: nat)
    requires 0 < k < |cs|
    ensures [cs[0]] + (cs[1..][..k - 1] + cs[1..][k..]) == cs[..k] + cs[k + 1..]
  {
    var a, b := cs[1..][..k - 1], cs[1..][k..];
    assert [cs[0]] + (a + b) == ([cs[0]] + a) + b;
    assert [cs[0]] + a == cs[..k];
    assert b == cs[k + 1..];
  }
}

/**
 * Sequence helpers shared by the weak collections: the `List<T>` operations
 * the code calls (`Remove`, `FirstOrDefault`) and order-preserving filtering.
 */
module Handles {
  import opened Objects

  /** No element occurs twice. */
  ghost predicate Distinct<T>(s: seq<T>) {
    forall i, j :: 0 <= i < j < |s| ==> s[i] != s[j]
  }

  /** `List<T>.Remove(x)`: drops the first occurrence of `x`, if there is one. */
  function RemoveFirst<T(==)>(s: seq<T>, x: T): (r: seq<T>)
    ensures x !in s ==> r == s
    ensures x in s ==> |r| == |s| - 1
  {
    if s == [] then []
    else if s[0] == x then s[1..]
    else [s[0]] + RemoveFirst(s[1..], x)
  }

  /** `Remove` keeps every other element and, on a duplicate-free list, drops `x` altogether. */
  lemma {:induction false} RemoveFirstSpec<T>(s: seq<T>, x: T)
    ensures forall i :: 0 <= i < |RemoveFirst(s, x)| ==> RemoveFirst(s, x)[i] in s
    ensures forall i :: 0 <= i < |s| && s[i] != x ==> s[i] in RemoveFirst(s, x)
    ensures Distinct(s) ==> Distinct(RemoveFirst(s, x)) && x !in RemoveFirst(s, x)
  {
    if s != [] && s[0] != x {
      RemoveFirstSpec(s[1..], x);
      assert s == [s[0]] + s[1..];
    }
  }

  /** Removing an element that occurs once leaves its neighbours in place. */
  lemma {:induction false} RemoveFirstSplit<T>(a: seq<T>, x: T, b: seq<T>)
    requires x !in a
    ensures RemoveFirst(a + [x] + b, x) == a + b
  {
    if a != [] {
      assert (a + [x] + b)[1..] == a[1..] + [x] + b;
      RemoveFirstSplit(a[1..], x, b);
      assert [a[0]] + (a[1..] + b) == a + b;
    }
  }

  /**
   * The position of the first handle whose current target is `o` (`|s|` if
   * there is none): the element `FirstOrDefault(wr => wr.Target == o)` picks.
   * With `o == null` that is the first dead handle.
   */
  function IndexOfLive(s: seq<WeakRef>, o: Obj?, alive: set<Obj>): (i: nat)
    ensures i <= |s|
    ensures forall j :: 0 <= j < i ==> s[j].Target(alive) != o
    ensures i < |s| ==> s[i].Target(alive) == o
  {
    if s == [] then 0
    else if s[0].Target(alive) == o then 0
    else 1 + IndexOfLive(s[1..], o, alive)
  }

  /** `s.FirstOrDefault(wr => wr.Target == o)`. */
  function FirstLive(s: seq<WeakRef>, o: Obj?, alive: set<Obj>): (r: WeakRef?)
    ensures r == null <==> forall j :: 0 <= j < |s| ==> s[j].Target(alive) != o
    ensures r != null ==> r in s && r.Target(alive) == o
    ensures r != null ==>
              exists i :: 0 <= i < |s| && s[i] == r && forall j :: 0 <= j < i ==> s[j].Target(alive) != o
  {
    var i := IndexOfLive(s, o, alive);
    if i < |s| then s[i] else null
  }

  /** A duplicate-free sequence has as many distinct elements as positions. */
  lemma {:induction false} DistinctCardinality<T>(s: seq<T>)
    requires Distinct(s)
    ensures |set x | x in s| == |s|
  {
    if s != [] {
      var init := s[..|s| - 1];
      assert Distinct(init);
      DistinctCardinality(init);
      assert (set x | x in s) == (set x | x in init) + {s[|s| - 1]};
      assert s[|s| - 1] !in init;
    }
  }

  /** A subset as large as its superset is the whole superset. */
  lemma SubsetOfEqualSize<T>(a: set<T>, b: set<T>)
    requires a <= b && |a| == |b|
    ensures a == b
  {
    assert b == a + (b - a) && a * (b - a) == {};
    assert b - a == {};
  }
}

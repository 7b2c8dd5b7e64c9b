/** Listings: the places where something holds, in order, and what a list has gathered there. */
module Picks {

  /** The places below n where p holds, in ascending order. */
  function Places(n: nat, p: nat -> bool): (places: seq<nat>)
    ensures forall i: nat :: i in places <==> i < n && p(i)
    ensures forall i, j | 0 <= i < j < |places| :: places[i] < places[j]
  {
    if n == 0 then []
    else
      var before := Places(n - 1, p);
      assert forall i | 0 <= i < |before| :: before[i] in before;
      before + if p(n - 1) then [n - 1] else []
  }

  /** What g gives at those places. */
  function Picked<T>(n: nat, p: nat -> bool, g: nat -> T): (list: seq<T>)
    ensures |list| == |Places(n, p)| && forall k | 0 <= k < |list| :: list[k] == g(Places(n, p)[k])
  {
    seq(|Places(n, p)|, k requires 0 <= k < |Places(n, p)| => g(Places(n, p)[k]))
  }

  /** From j to the next place the list gains what is picked there. */
  ghost predicate Gains<T>(list: nat -> seq<T>, p: nat -> bool, g: nat -> T, j: nat) {
    list(j + 1) == list(j) + if p(j) then [g(j)] else []
  }

  lemma PickedNext<T>(n: nat, p: nat -> bool, g: nat -> T)
    ensures Picked(n + 1, p, g) == Picked(n, p, g) + if p(n) then [g(n)] else []
  {
  }

  /** A list that gains like this from nothing has gathered exactly what is picked, in order. */
  lemma {:induction false} Gathered<T>(n: nat, list: nat -> seq<T>, p: nat -> bool, g: nat -> T)
    requires list(0) == [] && forall j: nat | j < n :: Gains(list, p, g, j)
    ensures list(n) == Picked(n, p, g)
    decreases n
  {
    if n > 0 {
      Gathered(n - 1, list, p, g);
      PickedNext(n - 1, p, g);
      assert Gains(list, p, g, n - 1);
    }
  }

  ghost predicate Counts(count: nat -> int, p: nat -> bool, j: nat) {
    count(j + 1) == count(j) + if p(j) then 1 else 0
  }

  /** A number that rises by one exactly there is how many places there are. */
  lemma {:induction false} Counted(n: nat, count: nat -> int, p: nat -> bool)
    requires count(0) == 0 && forall j: nat | j < n :: Counts(count, p, j)
    ensures count(n) == |Places(n, p)|
    decreases n
  {
    if n > 0 {
      Counted(n - 1, count, p);
      assert Counts(count, p, n - 1);
    }
  }

  /** Below n it holds at i and nowhere else. */
  predicate OnlyAt(n: nat, p: nat -> bool, i: nat) {
    i < n && forall j: nat | j < n :: p(j) <==> j == i
  }

  lemma OnePlace(n: nat, p: nat -> bool)
    ensures |Places(n, p)| == 1 <==> exists i: nat :: i < n && OnlyAt(n, p, i)
    ensures |Places(n, p)| == 1 ==> OnlyAt(n, p, Places(n, p)[0])
  {
    var places := Places(n, p);
    if |places| == 1 {
      var i := places[0];
      assert i in places;
      forall j: nat | j < n
        ensures p(j) <==> j == i
      {
        assert p(j) <==> j in places;
      }
      assert OnlyAt(n, p, i);
    }
    if i: nat :| i < n && OnlyAt(n, p, i) {
      assert i in places;
      OneElement(places, i);
    }
  }

  lemma OneElement(places: seq<nat>, i: nat)
    requires i in places && forall j :: j in places ==> j == i
    requires forall k, l | 0 <= k < l < |places| :: places[k] < places[l]
    ensures |places| == 1
  {
    forall k | 0 <= k < |places|
      ensures places[k] == i
    {
      assert places[k] in places;
    }
    assert places[|places| - 1] == places[0];
  }
}

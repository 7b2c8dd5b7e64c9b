/** Sorted listings of a set of strings. */
module Ordering {

  /** Strict lexicographic order. */
  predicate Less(a: string, b: string) {
    if b == "" then false
    else if a == "" then true
    else a[0] < b[0] || (a[0] == b[0] && Less(a[1..], b[1..]))
  }

  lemma {:induction false} LessTotal(a: string, b: string)
    ensures Less(a, b) || Less(b, a) || a == b
    ensures !(Less(a, b) && Less(b, a))
    ensures !Less(a, a)
    decreases |a|
  {
    if a != "" {
      LessTotal(a[1..], a[1..]);
      if b != "" {
        LessTotal(a[1..], b[1..]);
        if a[0] == b[0] && a[1..] == b[1..] {
          assert a == [a[0]] + a[1..] == b;
        }
      }
    }
  }

  lemma {:induction false} LessTransitive(a: string, b: string, c: string)
    requires Less(a, b) && Less(b, c)
    ensures Less(a, c)
    decreases |a|
  {
    if a != "" && a[0] == b[0] && b[0] == c[0] {
      LessTransitive(a[1..], b[1..], c[1..]);
    }
  }

  /** One is the beginning of the other, or they differ first where a has the smaller character. */
  predicate Before(a: string, b: string, k: nat) {
    && k <= |a| && k <= |b| && (forall i | 0 <= i < k :: a[i] == b[i])
    && if k == |a| then k < |b| else k < |b| && a[k] < b[k]
  }

  lemma {:induction false} LessIff(a: string, b: string)
    ensures Less(a, b) <==> exists k: nat :: Before(a, b, k)
    decreases |a|
  {
    if a == "" && b != "" {
      assert Before(a, b, 0);
    } else if a != "" && b != "" {
      LessIff(a[1..], b[1..]);
      if k: nat :| Before(a[1..], b[1..], k) {
        assert a[0] == b[0] ==> Before(a, b, k + 1);
      }
      if k: nat :| Before(a, b, k) {
        assert k > 0 ==> Before(a[1..], b[1..], k - 1);
      }
      assert a[0] < b[0] ==> Before(a, b, 0);
    }
  }

  predicate Sorted(ids: seq<string>) {
    forall i, j | 0 <= i < j < |ids| :: Less(ids[i], ids[j])
  }

  function Elements(ids: seq<string>): set<string> {
    set id | id in ids
  }

  /** A set has only one sorted listing. */
  lemma {:induction false} SortedUnique(a: seq<string>, b: seq<string>)
    requires Sorted(a) && Sorted(b) && Elements(a) == Elements(b)
    ensures a == b
    decreases |a|
  {
    assert b != [] ==> b[0] in Elements(b);
    if a != [] {
      assert a[0] in Elements(b);
      assert b != [] && b[0] in Elements(a);
      FirstIsLeast(a, b[0]);
      FirstIsLeast(b, a[0]);
      LessTotal(a[0], b[0]);
      TailElements(a);
      TailElements(b);
      SortedUnique(a[1..], b[1..]);
      assert a == [a[0]] + a[1..] && b == [b[0]] + b[1..];
    }
  }

  lemma FirstIsLeast(a: seq<string>, id: string)
    requires Sorted(a) && id in Elements(a)
    ensures a[0] == id || Less(a[0], id)
  {
    var i :| 0 <= i < |a| && a[i] == id;
  }

  lemma TailElements(a: seq<string>)
    requires a != [] && Sorted(a)
    ensures Elements(a[1..]) == Elements(a) - {a[0]}
  {
    forall i | 0 < i < |a|
      ensures a[i] != a[0]
    {
      LessTotal(a[0], a[i]);
    }
    forall id | id in Elements(a) - {a[0]}
      ensures id in a[1..]
    {
      var i :| 0 <= i < |a| && a[i] == id;
      assert a[1..][i - 1] == id;
    }
  }

  method Insert(sorted: seq<string>, id: string) returns (r: seq<string>)
    requires Sorted(sorted) && id !in sorted
    ensures Sorted(r) && Elements(r) == Elements(sorted) + {id}
  {
    var i := 0;
    while i < |sorted| && Less(sorted[i], id)
      invariant i <= |sorted|
      invariant forall k | 0 <= k < i :: Less(sorted[k], id)
    {
      i := i + 1;
    }
    forall k | i <= k < |sorted|
      ensures Less(id, sorted[k])
    {
      LessTotal(sorted[i], id);
      if i < k {
        LessTransitive(id, sorted[i], sorted[k]);
      }
    }
    r := sorted[..i] + [id] + sorted[i..];
  }

  method Sort(ids: set<string>) returns (r: seq<string>)
    ensures Sorted(r) && Elements(r) == ids
  {
    r := [];
    var rest := ids;
    while rest != {}
      invariant Sorted(r) && rest <= ids && Elements(r) == ids - rest
      decreases rest
    {
      var id :| id in rest;
      assert id !in Elements(r);
      r := Insert(r, id);
      rest := rest - {id};
    }
  }
}

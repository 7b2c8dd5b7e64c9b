/** Values shared by the other modules. */
module Common {

  datatype Option<+T> = None | Some(value: T)

  datatype Result<+T, +E> = Ok(value: T) | Err(error: E)

  /** The concatenation of a list of chunks. */
  function Flatten<T>(chunks: seq<seq<T>>): seq<T> {
    if chunks == [] then [] else chunks[0] + Flatten(chunks[1..])
  }

  lemma FlattenAppend<T>(left: seq<seq<T>>, right: seq<seq<T>>)
    ensures Flatten(left + right) == Flatten(left) + Flatten(right)
  {
    if left == [] {
      assert left + right == right;
    } else {
      assert (left + right)[1..] == left[1..] + right;
      FlattenAppend(left[1..], right);
    }
  }

  lemma AppendThree<T>(a: seq<T>, b: seq<T>, c: seq<T>)
    ensures a + (b + c) == (a + b) + c
  {
  }

  lemma TailOfSum<T>(a: seq<T>, b: seq<T>)
    requires a != []
    ensures (a + b)[0] == a[0] && (a + b)[1..] == a[1..] + b
  {
  }

  lemma CutOfSum<T>(a: seq<T>, b: seq<T>, n: nat)
    requires n < |a|
    ensures (a + b)[..n] == a[..n] && (a + b)[n + 1..] == a[n + 1..] + b
  {
  }

  function Min(a: int, b: int): int {
    if a < b then a else b
  }

  function Max(a: int, b: int): int {
    if a < b then b else a
  }

  // ------------------------------------------------------------------------- values that stay

  ghost predicate Stays<T>(f: nat -> T, j: nat) {
    f(j + 1) == f(j)
  }

  lemma {:induction false} Steady<T>(f: nat -> T, lo: nat, hi: nat)
    requires lo <= hi && forall j: nat | lo <= j < hi :: Stays(f, j)
    ensures f(hi) == f(lo)
    decreases hi
  {
    if lo < hi {
      Steady(f, lo, hi - 1);
      assert Stays(f, hi - 1);
    }
  }

  /** What only bad steps end has lasted exactly if no step was bad. */
  predicate EndsWhenBad(good: nat -> bool, bad: nat -> bool, j: nat) {
    good(j + 1) <==> good(j) && !bad(j)
  }

  lemma {:induction false} GoodUnlessBad(n: nat, good: nat -> bool, bad: nat -> bool)
    requires good(0) && forall j: nat | j < n :: EndsWhenBad(good, bad, j)
    ensures good(n) <==> forall j: nat | j < n :: !bad(j)
    decreases n
  {
    if n > 0 {
      GoodUnlessBad(n - 1, good, bad);
      assert EndsWhenBad(good, bad, n - 1);
    }
  }

  /** A set has as many elements as its image under a function that keeps them apart. */
  lemma {:induction false} ImageSize<A(!new), B(!new)>(s: set<A>, f: A -> B, image: set<B>)
    requires forall a, b | a in s && b in s && f(a) == f(b) :: a == b
    requires forall b :: b in image <==> exists a :: a in s && f(a) == b
    ensures |image| == |s|
    decreases |s|
  {
    if s == {} {
      assert image == {};
    } else {
      var a :| a in s;
      assert f(a) in image;
      ImageSize(s - {a}, f, image - {f(a)});
    }
  }

  // ------------------------------------------------------------------------- levels

  /** What has come in less what has gone out from k up to n. */
  function Surplus(drift: nat -> int, k: nat, n: nat): int
    requires k <= n
    decreases n
  {
    if k == n then 0 else Surplus(drift, k, n - 1) + drift(n - 1)
  }

  /** The level follows the drift but never falls below nothing. */
  predicate Floats(level: nat -> int, drift: nat -> int, j: nat) {
    level(j + 1) == Max(0, level(j) + drift(j))
  }

  /** Such a level is the largest surplus that any stretch up to now has left. */
  lemma {:induction false} LargestSurplus(level: nat -> int, drift: nat -> int, n: nat) returns (k: nat)
    requires level(0) == 0 && forall j: nat | j < n :: Floats(level, drift, j)
    ensures k <= n && level(n) == Surplus(drift, k, n)
    ensures forall l: nat | l <= n :: Surplus(drift, l, n) <= level(n)
    decreases n
  {
    k := 0;
    if n > 0 {
      k := LargestSurplus(level, drift, n - 1);
      assert Floats(level, drift, n - 1);
      if level(n - 1) + drift(n - 1) < 0 {
        k := n;
      }
      forall l: nat | l <= n
        ensures Surplus(drift, l, n) <= level(n)
      {
        assert l < n ==> Surplus(drift, l, n - 1) <= level(n - 1);
      }
    }
  }
}

/** Runs of a step function from a start state, and how two runs join. */
module Runs {

  function StateAfter<S, A>(apply: (S, A) -> S, s: S, run: seq<A>, k: nat): S
    requires k <= |run|
  {
    if k == 0 then s else apply(StateAfter(apply, s, run, k - 1), run[k - 1])
  }

  /** Every step of the run is enabled where it is taken. */
  predicate Legal<S, A>(apply: (S, A) -> S, enabled: (S, A) -> bool, s: S, run: seq<A>) {
    forall k | 0 <= k < |run| :: enabled(StateAfter(apply, s, run, k), run[k])
  }

  lemma {:induction false} JoinLeft<S, A>(apply: (S, A) -> S, s: S, run: seq<A>, more: seq<A>, k: nat)
    requires k <= |run|
    ensures StateAfter(apply, s, run + more, k) == StateAfter(apply, s, run, k)
    decreases k
  {
    if k > 0 {
      JoinLeft(apply, s, run, more, k - 1);
    }
  }

  lemma {:induction false} JoinRight<S, A>(apply: (S, A) -> S, s: S, run: seq<A>, more: seq<A>, k: nat)
    requires k <= |more|
    ensures StateAfter(apply, s, run + more, |run| + k)
         == StateAfter(apply, StateAfter(apply, s, run, |run|), more, k)
    decreases k
  {
    if k == 0 {
      JoinLeft(apply, s, run, more, |run|);
    } else {
      JoinRight(apply, s, run, more, k - 1);
    }
  }

  lemma OneMore<S, A>(apply: (S, A) -> S, s: S, run: seq<A>, a: A)
    ensures StateAfter(apply, s, run + [a], |run| + 1) == apply(StateAfter(apply, s, run, |run|), a)
  {
    JoinLeft(apply, s, run, [a], |run|);
  }

  lemma JoinLegal<S, A>(apply: (S, A) -> S, enabled: (S, A) -> bool, s: S, run: seq<A>, more: seq<A>)
    requires Legal(apply, enabled, s, run)
    requires Legal(apply, enabled, StateAfter(apply, s, run, |run|), more)
    ensures Legal(apply, enabled, s, run + more)
  {
    forall k | 0 <= k < |run + more|
      ensures enabled(StateAfter(apply, s, run + more, k), (run + more)[k])
    {
      if k < |run| {
        JoinLeft(apply, s, run, more, k);
      } else {
        JoinRight(apply, s, run, more, k - |run|);
      }
    }
  }

  /** Two runs, the second starting where the first ends, are one run. */
  lemma Join<S, A>(
    apply: (S, A) -> S, enabled: (S, A) -> bool, s: S, run: seq<A>, middle: S, more: seq<A>, last: S)
    requires Legal(apply, enabled, s, run) && StateAfter(apply, s, run, |run|) == middle
    requires Legal(apply, enabled, middle, more) && StateAfter(apply, middle, more, |more|) == last
    ensures Legal(apply, enabled, s, run + more) && StateAfter(apply, s, run + more, |run + more|) == last
  {
    JoinLegal(apply, enabled, s, run, more);
    JoinRight(apply, s, run, more, |more|);
  }

  predicate StepKeeps<S, E>(
    apply: (S, E) -> S, enabled: (S, E) -> bool, good: S -> bool, still: S -> bool, s: S, e: E)
  {
    good(s) && still(s) && enabled(s, e) && still(apply(s, e)) ==> good(apply(s, e))
  }

  /** What each step keeps while something else stays true is kept by a whole run of such steps. */
  lemma {:induction false} RunKeeps<S(!new), E(!new)>(
    apply: (S, E) -> S, enabled: (S, E) -> bool, good: S -> bool, still: S -> bool, s: S, run: seq<E>, k: nat)
    requires Legal(apply, enabled, s, run) && k <= |run| && good(s)
    requires forall j: nat | j <= |run| :: still(StateAfter(apply, s, run, j))
    requires forall a, e :: StepKeeps(apply, enabled, good, still, a, e)
    ensures good(StateAfter(apply, s, run, k))
    decreases k
  {
    if k > 0 {
      RunKeeps(apply, enabled, good, still, s, run, k - 1);
      assert StepKeeps(apply, enabled, good, still, StateAfter(apply, s, run, k - 1), run[k - 1]);
    }
  }
}

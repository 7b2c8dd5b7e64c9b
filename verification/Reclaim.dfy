/** The drain controller: sampled, with a cancelable wait before anything is reclaimed. */
module Reclaim {
  import opened Common

  datatype Reason = Archive | Idle

  datatype Action = NoAction | DrainStarted(reason: Reason) | DrainCancelled(reason: Reason) | Reclaim(reason: Reason)

  datatype Drain = Drain(reason: Reason, startedAt: nat, generation: nat)

  datatype Sample = Sample(
    now: nat, activeTurns: nat, reliable: bool, generation: nat, clientIdle: nat, archiveEpoch: nat)
  {
    predicate Inactive() {
      reliable && activeTurns == 0
    }
  }

  datatype Controller = Controller(idleAfter: nat, drainFor: nat, seen: nat, drain: Option<Drain>)

  function NewController(idleAfter: nat, drainFor: nat): Controller {
    Controller(idleAfter, drainFor, 0, None)
  }

  function SaturatingSub(a: nat, b: nat): nat {
    if a < b then 0 else a - b
  }

  function Evaluate(c: Controller, s: Sample): (Controller, Action) {
    if c.drain.Some? then
      var d := c.drain.value;
      if !s.reliable || s.activeTurns > 0 || s.generation != d.generation then
        (c.(drain := None), DrainCancelled(d.reason))
      else if SaturatingSub(s.now, d.startedAt) >= c.drainFor then (c, Reclaim(d.reason))
      else (c, NoAction)
    else if !s.reliable || s.activeTurns > 0 then (c, NoAction)
    else
      var c' := c.(seen := Max(c.seen, s.archiveEpoch));
      if s.archiveEpoch > c.seen then
        (c'.(drain := Some(Drain(Archive, s.now, s.generation))), DrainStarted(Archive))
      else if s.clientIdle >= c.idleAfter then
        (c'.(drain := Some(Drain(Idle, s.now, s.generation))), DrainStarted(Idle))
      else (c', NoAction)
  }

  class ReclaimController {
    const idleAfter: nat
    const drainFor: nat
    var seenArchiveEpoch: nat
    var drain: Option<Drain>

    constructor (idleAfter: nat, drainFor: nat)
      ensures View() == NewController(idleAfter, drainFor)
    {
      this.idleAfter, this.drainFor := idleAfter, drainFor;
      seenArchiveEpoch, drain := 0, None;
    }

    function View(): Controller
      reads this
    {
      Controller(idleAfter, drainFor, seenArchiveEpoch, drain)
    }

    method Step(s: Sample) returns (action: Action)
      modifies this
      ensures (View(), action) == Evaluate(old(View()), s)
    {
      if drain.Some? {
        var d := drain.value;
        if !s.reliable || s.activeTurns > 0 || s.generation != d.generation {
          drain := None;
          return DrainCancelled(d.reason);
        }
        if SaturatingSub(s.now, d.startedAt) >= drainFor {
          return Reclaim(d.reason);
        }
        return NoAction;
      }
      if !s.reliable || s.activeTurns > 0 {
        return NoAction;
      }
      var unseenArchive := s.archiveEpoch > seenArchiveEpoch;
      seenArchiveEpoch := Max(seenArchiveEpoch, s.archiveEpoch);
      var reason := Archive;
      if !unseenArchive {
        if s.clientIdle < idleAfter {
          return NoAction;
        }
        reason := Idle;
      }
      drain := Some(Drain(reason, s.now, s.generation));
      return DrainStarted(reason);
    }
  }

  // ---------------------------------------------------------------- runs of one controller

  function StateAt(c: Controller, run: seq<Sample>, n: nat): Controller
    requires n <= |run|
  {
    if n == 0 then c else Evaluate(StateAt(c, run, n - 1), run[n - 1]).0
  }

  function ActionAt(c: Controller, run: seq<Sample>, n: nat): Action
    requires n < |run|
  {
    Evaluate(StateAt(c, run, n), run[n]).1
  }

  /** A drain started at sample i for this reason and every sample from i up to n was quiet. */
  predicate HeldSince(c: Controller, run: seq<Sample>, i: nat, n: nat, reason: Reason)
    requires n <= |run|
  {
    && i < n
    && ActionAt(c, run, i) == DrainStarted(reason)
    && forall k | i <= k < n :: run[k].Inactive() && run[k].generation == run[i].generation
  }

  lemma {:induction false} HeldMeansDrain(c: Controller, run: seq<Sample>, i: nat, n: nat, reason: Reason)
    requires n <= |run| && HeldSince(c, run, i, n, reason)
    ensures StateAt(c, run, n).drain == Some(Drain(reason, run[i].now, run[i].generation))
    decreases n
  {
    if i < n - 1 {
      HeldMeansDrain(c, run, i, n - 1, reason);
    }
  }

  /** The drain under way is the one some sample started, held ever since. */
  lemma {:induction false} DrainMeansHeld(c: Controller, run: seq<Sample>, n: nat) returns (i: nat)
    requires n <= |run| && c.drain.None? && StateAt(c, run, n).drain.Some?
    ensures var d := StateAt(c, run, n).drain.value;
            HeldSince(c, run, i, n, d.reason) && d.startedAt == run[i].now && d.generation == run[i].generation
    decreases n
  {
    if StateAt(c, run, n - 1).drain.Some? {
      i := DrainMeansHeld(c, run, n - 1);
    } else {
      i := n - 1;
    }
  }

  predicate Nondecreasing(run: seq<Sample>) {
    forall i, j | 0 <= i <= j < |run| :: run[i].now <= run[j].now
  }

  lemma {:induction false} DrainForIsFixed(c: Controller, run: seq<Sample>, n: nat)
    requires n <= |run|
    ensures StateAt(c, run, n).drainFor == c.drainFor && StateAt(c, run, n).idleAfter == c.idleAfter
    decreases n
  {
    if n > 0 {
      DrainForIsFixed(c, run, n - 1);
    }
  }

  /** A drain for this reason was started long enough ago, and every sample since has been quiet. */
  ghost predicate Earned(c: Controller, run: seq<Sample>, j: nat, reason: Reason)
    requires j < |run|
  {
    exists i: nat :: i < j && HeldSince(c, run, i, j + 1, reason) && run[j].now >= run[i].now + c.drainFor
  }

  /** Reclaiming is decided exactly when it has been earned. */
  lemma ReclaimIffEarned(c: Controller, run: seq<Sample>, j: nat, reason: Reason)
    requires c.drain.None? && Nondecreasing(run) && j < |run|
    ensures ActionAt(c, run, j) == Reclaim(reason) <==> Earned(c, run, j, reason)
  {
    DrainForIsFixed(c, run, j);
    if ActionAt(c, run, j) == Reclaim(reason) {
      var i := DrainMeansHeld(c, run, j);
      assert HeldSince(c, run, i, j + 1, reason);
    }
    if Earned(c, run, j, reason) {
      var i: nat :| i < j && HeldSince(c, run, i, j + 1, reason) && run[j].now >= run[i].now + c.drainFor;
      HeldMeansDrain(c, run, i, j, reason);
    }
  }

  /** A drain for this reason was held up to sample j, which breaks it. */
  ghost predicate Broken(c: Controller, run: seq<Sample>, j: nat, reason: Reason)
    requires j < |run|
  {
    exists i: nat :: HeldSince(c, run, i, j, reason) && !(run[j].Inactive() && run[j].generation == run[i].generation)
  }

  /** A drain is cancelled at the first sample that is not quiet, and at no other. */
  lemma CancelIffBroken(c: Controller, run: seq<Sample>, j: nat, reason: Reason)
    requires c.drain.None? && j < |run|
    ensures ActionAt(c, run, j) == DrainCancelled(reason) <==> Broken(c, run, j, reason)
  {
    if ActionAt(c, run, j) == DrainCancelled(reason) {
      var i := DrainMeansHeld(c, run, j);
      assert HeldSince(c, run, i, j, reason);
    }
    if Broken(c, run, j, reason) {
      var i: nat :| HeldSince(c, run, i, j, reason)
                    && !(run[j].Inactive() && run[j].generation == run[i].generation);
      HeldMeansDrain(c, run, i, j, reason);
    }
  }

  // ---------------------------------------------------------------- archive epochs

  predicate ArchiveStart(c: Controller, run: seq<Sample>, i: nat)
    requires i < |run|
  {
    ActionAt(c, run, i) == DrainStarted(Archive)
  }

  lemma SeenStep(c: Controller, s: Sample)
    ensures var next := Evaluate(c, s).0.seen;
            if Evaluate(c, s).1 == DrainStarted(Archive) then c.seen <= next == s.archiveEpoch else next == c.seen
  {
  }

  lemma SeenNext(c: Controller, run: seq<Sample>, n: nat)
    requires n < |run|
    ensures var before, after := StateAt(c, run, n).seen, StateAt(c, run, n + 1).seen;
            if ArchiveStart(c, run, n) then before <= after == run[n].archiveEpoch else after == before
  {
    SeenStep(StateAt(c, run, n), run[n]);
  }

  lemma {:induction false} SeenIsTop(c: Controller, run: seq<Sample>, n: nat, i: nat)
    requires i < n <= |run| && ArchiveStart(c, run, i)
    ensures run[i].archiveEpoch <= StateAt(c, run, n).seen
    decreases n
  {
    SeenNext(c, run, n - 1);
    if i < n - 1 {
      SeenIsTop(c, run, n - 1, i);
    }
  }

  lemma {:induction false} SeenIsUsed(c: Controller, run: seq<Sample>, n: nat) returns (i: nat)
    requires n <= |run|
    ensures StateAt(c, run, n).seen == c.seen
         || (i < n && ArchiveStart(c, run, i) && run[i].archiveEpoch == StateAt(c, run, n).seen)
    decreases n
  {
    if n == 0 {
      i := 0;
    } else {
      SeenNext(c, run, n - 1);
      i := SeenIsUsed(c, run, n - 1);
      if ArchiveStart(c, run, n - 1) {
        i := n - 1;
      }
    }
  }

  lemma {:induction false} SeenRises(c: Controller, run: seq<Sample>, n: nat)
    requires n <= |run|
    ensures c.seen <= StateAt(c, run, n).seen
    decreases n
  {
    if n > 0 {
      SeenRises(c, run, n - 1);
      SeenNext(c, run, n - 1);
    }
  }

  /** The largest epoch an archive drain has used, or the initial mark. */
  lemma SeenMeaning(c: Controller, run: seq<Sample>, n: nat)
    requires n <= |run|
    ensures var seen := StateAt(c, run, n).seen;
            && c.seen <= seen
            && (forall i: nat | i < n && ArchiveStart(c, run, i) :: run[i].archiveEpoch <= seen)
            && (seen == c.seen || exists i: nat | i < n :: ArchiveStart(c, run, i) && run[i].archiveEpoch == seen)
  {
    SeenRises(c, run, n);
    var used := SeenIsUsed(c, run, n);
    forall i: nat | i < n && ArchiveStart(c, run, i)
      ensures run[i].archiveEpoch <= StateAt(c, run, n).seen
    {
      SeenIsTop(c, run, n, i);
    }
  }

  /** Quiet, with no drain under way. */
  predicate Eligible(c: Controller, run: seq<Sample>, j: nat)
    requires j < |run|
  {
    StateAt(c, run, j).drain.None? && run[j].Inactive()
  }

  /**
    Within one controller's life every archive drain uses a strictly newer
    epoch, and an epoch first seen while busy, unreliable or draining is used at
    the first eligible sample that still shows it: it is deferred, never lost.
   */
  lemma ArchiveIffUnused(c: Controller, run: seq<Sample>, j: nat)
    requires j < |run|
    ensures ArchiveStart(c, run, j) <==>
            && Eligible(c, run, j)
            && c.seen < run[j].archiveEpoch
            && forall i: nat | i < j && ArchiveStart(c, run, i) :: run[i].archiveEpoch < run[j].archiveEpoch
  {
    SeenMeaning(c, run, j);
  }

  /** An idle drain starts exactly when the client has been idle long enough and no unused epoch comes first. */
  lemma IdleStartIff(c: Controller, run: seq<Sample>, j: nat)
    requires j < |run|
    ensures ActionAt(c, run, j) == DrainStarted(Idle) <==>
            Eligible(c, run, j) && !ArchiveStart(c, run, j) && run[j].clientIdle >= c.idleAfter
  {
    DrainForIsFixed(c, run, j);
  }

  /** Some drain started before j and was held ever since. */
  ghost predicate Held(c: Controller, run: seq<Sample>, j: nat)
    requires j <= |run|
  {
    exists i: nat, reason: Reason :: HeldSince(c, run, i, j, reason)
  }

  /** An epoch above the initial mark and above every epoch an archive drain has used. */
  predicate Unused(c: Controller, run: seq<Sample>, j: nat)
    requires j < |run|
  {
    c.seen < run[j].archiveEpoch
    && forall i: nat | i < j && ArchiveStart(c, run, i) :: run[i].archiveEpoch < run[j].archiveEpoch
  }

  /**
    A drain starts exactly at a quiet sample that no drain is held up to, for an
    unused epoch or, without one, for a client idle long enough.
   */
  lemma DrainStartsIff(c: Controller, run: seq<Sample>, j: nat)
    requires c.drain.None? && j < |run|
    ensures ActionAt(c, run, j) == DrainStarted(Archive) <==>
            run[j].Inactive() && !Held(c, run, j) && Unused(c, run, j)
    ensures ActionAt(c, run, j) == DrainStarted(Idle) <==>
            run[j].Inactive() && !Held(c, run, j) && !Unused(c, run, j) && run[j].clientIdle >= c.idleAfter
  {
    ArchiveIffUnused(c, run, j);
    IdleStartIff(c, run, j);
    if StateAt(c, run, j).drain.Some? {
      var i := DrainMeansHeld(c, run, j);
    }
    if i: nat, reason: Reason :| HeldSince(c, run, i, j, reason) {
      HeldMeansDrain(c, run, i, j, reason);
    }
  }
}

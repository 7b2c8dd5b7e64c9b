/**
  The sampled controller composed with the observer: what a decision to
  reclaim proves about the whole stream of messages, not only about the samples.
 */
module DrainGuarantee {
  import opened Common
  import opened Protocol
  import opened History
  import opened IdleInventory
  import opened IdleTruth
  import opened Reliability
  import opened Picks
  import opened Snapshots
  import opened Responses
  import R = Reclaim

  /** When each sample was taken: how much of the history had been observed, and the two clock readings. */
  datatype Reading = Reading(position: nat, now: nat, clientIdle: nat)

  /** Readings of one growing history under a nondecreasing clock. */
  predicate Readings(h: seq<Event>, readings: seq<Reading>) {
    && (forall i | 0 <= i < |readings| :: readings[i].position <= |h|)
    && (forall i, j | 0 <= i <= j < |readings| ::
          readings[i].position <= readings[j].position && readings[i].now <= readings[j].now)
  }

  function SampleOf(h: seq<Event>, r: Reading): R.Sample
    requires r.position <= |h|
  {
    var s := SnapshotOf(At(h, r.position));
    R.Sample(r.now, s.activeTurns, s.reliable, s.generation, r.clientIdle, s.archiveEpoch)
  }

  function Samples(h: seq<Event>, readings: seq<Reading>): (run: seq<R.Sample>)
    requires Readings(h, readings)
    ensures |run| == |readings|
  {
    seq(|readings|, i requires 0 <= i < |readings| => SampleOf(h, readings[i]))
  }

  predicate Quiet(h: seq<Event>, i: nat, j: nat) {
    forall l | i <= l < j <= |h| :: !IsActivity(h[l])
  }

  /** Sample i started the drain that has sample j reclaim. */
  ghost predicate Drained(c: R.Controller, run: seq<R.Sample>, i: nat, j: nat, reason: R.Reason)
    requires j < |run|
  {
    && i < j && run[j].now >= run[i].now + c.drainFor
    && R.ActionAt(c, run, i) == R.DrainStarted(reason)
    && R.StateAt(c, run, j).drain == Some(R.Drain(reason, run[i].now, run[i].generation))
  }

  /**
    The whole interval. Before a reclaim some earlier sample started its drain,
    at least the drain time ago; between the two not one user-activity message
    was observed, no event up to then cast any doubt, and however the responses
    belong to the requests, at every sample of the interval all was truly idle
    exactly if nothing was overlooked.
   */
  lemma ReclaimGuarantee(
    h: seq<Event>, readings: seq<Reading>, idleAfter: nat, drainFor: nat, j: nat, reason: R.Reason,
    answers: (nat, nat) -> bool)
    returns (i: nat)
    requires Readings(h, readings) && j < |readings| && Matching(h, answers)
    requires R.ActionAt(R.NewController(idleAfter, drainFor), Samples(h, readings), j) == R.Reclaim(reason)
    ensures Drained(R.NewController(idleAfter, drainFor), Samples(h, readings), i, j, reason)
    ensures Quiet(h, readings[i].position, readings[j].position)
    ensures NoDoubt(h, readings[j].position)
    ensures forall k | i <= k <= j ::
              TrulyIdle(h, answers, readings[k].position) <==> !Overlooked(h, answers, readings[k].position)
  {
    var run := Samples(h, readings);
    var c := R.NewController(idleAfter, drainFor);
    R.ReclaimIffEarned(c, run, j, reason);
    i :| i < j && R.HeldSince(c, run, i, j + 1, reason) && run[j].now >= run[i].now + c.drainFor;
    R.HeldMeansDrain(c, run, i, j, reason);
    QuietBetween(h, readings[i].position, readings[j].position);
    assert run[j].Inactive();
    ReliableIff(h, readings[j].position);
    forall k | i <= k <= j
      ensures TrulyIdle(h, answers, readings[k].position) <==> !Overlooked(h, answers, readings[k].position)
    {
      assert run[k].Inactive();
      IdleIsTrue(h, answers, readings[k].position);
    }
  }

  /** How many archives had taken the last live thread when this sample was taken. */
  ghost function EmptiedAt(h: seq<Event>, r: Reading): nat {
    |Places(r.position, ArchivesLastAt(h))|
  }

  /**
    When drains start, by the history: at a quiet sample up to which no drain is
    held, for an archive that emptied the set of live threads and that no drain
    has used, or, without one, for a client idle long enough.
   */
  lemma DrainStartsByHistory(h: seq<Event>, readings: seq<Reading>, idleAfter: nat, drainFor: nat, j: nat)
    requires Readings(h, readings) && j < |readings|
    ensures var c, run := R.NewController(idleAfter, drainFor), Samples(h, readings);
            var quiet := NoDoubt(h, readings[j].position) && run[j].activeTurns == 0 && !R.Held(c, run, j);
            var unused :=
              && EmptiedAt(h, readings[j]) > 0
              && forall i: nat | i < j && R.ArchiveStart(c, run, i) ::
                   EmptiedAt(h, readings[i]) < EmptiedAt(h, readings[j]);
            && (R.ActionAt(c, run, j) == R.DrainStarted(R.Archive) <==> quiet && unused)
            && (R.ActionAt(c, run, j) == R.DrainStarted(R.Idle) <==>
                quiet && !unused && readings[j].clientIdle >= idleAfter)
  {
    var c, run := R.NewController(idleAfter, drainFor), Samples(h, readings);
    R.DrainStartsIff(c, run, j);
    ReliableIff(h, readings[j].position);
    forall i: nat | i <= j
      ensures run[i].archiveEpoch == EmptiedAt(h, readings[i])
    {
      EpochIsExact(h, readings[i].position);
    }
  }

  // ---------------------------------------------------------------- the owner's last look

  /** The owner acts on a reclaim only between two snapshots taken under the forwarding gate. */
  ghost predicate Authorised(before: Snapshot, runtime: Peer, after: Snapshot) {
    && before.reliable && before.activeTurns == 0 && runtime.ProvenIdle()
    && after.reliable && after.activeTurns == 0
    && after.generation == before.generation
  }

  /** The observer sees what is true: nothing is overlooked and nothing made up. */
  ghost predicate SeesAll(h: seq<Event>, answers: (nat, nat) -> bool, n: nat) {
    !Overlooked(h, answers, n) && !Misattributed(h, answers, n)
  }

  /** What that test proves: no activity and no failure between the two, and all truly idle at both if it sees all. */
  lemma AuthorisedGuarantee(h: seq<Event>, b: nat, a: nat, runtime: Peer, answers: (nat, nat) -> bool)
    requires b <= a <= |h| && Matching(h, answers)
    ensures Authorised(SnapshotOf(At(h, b)), runtime, SnapshotOf(At(h, a))) ==>
              && runtime.ProvenIdle() && NoDoubt(h, a) && Quiet(h, b, a)
              && (TrulyIdle(h, answers, b) <==> !Overlooked(h, answers, b))
              && (TrulyIdle(h, answers, a) <==> !Overlooked(h, answers, a))
    ensures SeesAll(h, answers, b) && SeesAll(h, answers, a) ==>
              (Authorised(SnapshotOf(At(h, b)), runtime, SnapshotOf(At(h, a))) <==>
               && runtime.ProvenIdle() && NoDoubt(h, a) && Quiet(h, b, a)
               && TrulyIdle(h, answers, b) && TrulyIdle(h, answers, a))
  {
    QuietBetween(h, b, a);
    HistoryGrows(h, b, a);
    ReliableIff(h, a);
    if At(h, a).failures == 0 {
      IdleIsTrue(h, answers, b);
      IdleIsTrue(h, answers, a);
    }
  }

  /** Quiet since i, seen from two positions of one generation: exactly if that generation is the one at i. */
  lemma QuietSince(h: seq<Event>, i: nat, b: nat, a: nat)
    requires i <= b <= a <= |h| && At(h, b).generation == At(h, a).generation
    ensures Quiet(h, i, a) <==> At(h, b).generation == At(h, i).generation
  {
    QuietBetween(h, i, b);
    QuietBetween(h, b, a);
    QuietBetween(h, i, a);
  }

  /**
    The action and its drain. When a reclaim is authorised, not one user-activity
    message was observed from the start of its drain to the action exactly if the
    first gated snapshot still shows the generation the drain has recorded. The
    owner does not make that comparison.
   */
  lemma ActionIsQuietIff(
    h: seq<Event>, readings: seq<Reading>, idleAfter: nat, drainFor: nat, j: nat, reason: R.Reason,
    b: nat, a: nat, runtime: Peer)
    returns (i: nat)
    requires Readings(h, readings) && j < |readings| && readings[j].position <= b <= a <= |h|
    requires R.ActionAt(R.NewController(idleAfter, drainFor), Samples(h, readings), j) == R.Reclaim(reason)
    requires Authorised(SnapshotOf(At(h, b)), runtime, SnapshotOf(At(h, a)))
    ensures Drained(R.NewController(idleAfter, drainFor), Samples(h, readings), i, j, reason)
    ensures Quiet(h, readings[i].position, a) <==>
            SnapshotOf(At(h, b)).generation
            == R.StateAt(R.NewController(idleAfter, drainFor), Samples(h, readings), j).drain.value.generation
  {
    ResponsesMatch(h);
    i := ReclaimGuarantee(h, readings, idleAfter, drainFor, j, reason, ResponsesOf(h));
    QuietSince(h, readings[i].position, b, a);
  }

  /** So activity that starts no counted work, between the deciding sample and the gate, goes unnoticed. */
  lemma ActivityBeforeTheGate(runtime: Peer)
    ensures var open := ClientMessage(Some(ThreadStart), Some(Number("1")), None);
            var h := [FromClient(open)];
            var readings := [Reading(0, 0, 600), Reading(0, 3, 603)];
            && Readings(h, readings)
            && R.ActionAt(R.NewController(600, 3), Samples(h, readings), 1) == R.Reclaim(R.Idle)
            && (runtime.ProvenIdle() ==> Authorised(SnapshotOf(At(h, 1)), runtime, SnapshotOf(At(h, 1))))
            && !Quiet(h, readings[1].position, 1)
  {
    var open := ClientMessage(Some(ThreadStart), Some(Number("1")), None);
    var h := [FromClient(open)];
    var readings := [Reading(0, 0, 600), Reading(0, 3, 603)];
    var run := Samples(h, readings);
    var c := R.NewController(600, 3);
    assert At(h, 0) == NOTHING;
    ZeroCount(NOTHING);
    assert WorkingIds(NOTHING) == {};
    assert run[0] == R.Sample(0, 0, true, 0, 600, 0);
    assert run[1] == R.Sample(3, 0, true, 0, 603, 0);
    assert R.StateAt(c, run, 0) == c;
    assert R.StateAt(c, run, 1) == R.Evaluate(c, run[0]).0;
    assert At(h, 1) == OnClient(NOTHING, open);
    ZeroCount(At(h, 1));
    assert IsActivity(h[0]);
  }

  // ---------------------------------------------------------------- a replaced controller

  /** Nothing happens during the run, and every sample shows this archive epoch. */
  predicate QuietRun(run: seq<R.Sample>, epoch: nat) {
    && R.Nondecreasing(run)
    && forall k | 0 <= k < |run| ::
         run[k].Inactive() && run[k].generation == run[0].generation && run[k].archiveEpoch == epoch
  }

  /** Over a quiet run an archive reclaims exactly when its epoch is new to the controller and the drain is over. */
  lemma EpochReclaimsIff(c: R.Controller, run: seq<R.Sample>, epoch: nat, j: nat)
    requires c.drain.None? && QuietRun(run, epoch) && j < |run|
    ensures R.ActionAt(c, run, j) == R.Reclaim(R.Archive) <==>
            c.seen < epoch && 0 < j && run[j].now >= run[0].now + c.drainFor
  {
    R.ReclaimIffEarned(c, run, j, R.Archive);
    R.ArchiveIffUnused(c, run, 0);
    if c.seen < epoch && 0 < j && run[j].now >= run[0].now + c.drainFor {
      assert R.HeldSince(c, run, 0, j + 1, R.Archive);
    }
    if i: nat :| i < j && R.HeldSince(c, run, i, j + 1, R.Archive) && run[j].now >= run[i].now + c.drainFor {
      R.ArchiveIffUnused(c, run, i);
    }
  }

  /**
    A replacement has forgotten the epochs its predecessor used: over a quiet run
    it reclaims the connection for an old one, where the predecessor never would.
   */
  lemma ReplacementForgetsEpochs(c: R.Controller, run: seq<R.Sample>, epoch: nat, j: nat)
    requires c.drain.None? && 0 < epoch <= c.seen
    requires QuietRun(run, epoch) && 0 < j < |run| && run[j].now >= run[0].now + c.drainFor
    ensures R.ActionAt(c, run, j) != R.Reclaim(R.Archive)
    ensures R.ActionAt(R.NewController(c.idleAfter, c.drainFor), run, j) == R.Reclaim(R.Archive)
  {
    EpochReclaimsIff(c, run, epoch, j);
    EpochReclaimsIff(R.NewController(c.idleAfter, c.drainFor), run, epoch, j);
  }
}

/**
  Whatever has happened to a session, without one more crash or kill it can be
  brought to an end in which nobody holds the lock and no worker lives; and a
  session in which nothing goes wrong is served and stopped in full.
 */
module WindDown {
  import opened Common
  import opened Runs
  import opened SessionFence

  /** No process is killed or fails without cleaning up. */
  predicate IsOrderly(step: Step) {
    match step
    case OfClient(c) => c != ClientCrash
    case OfLineage(_, l) => l !in {OwnerCrash, GuardianKill, GuardianAbandon}
  }

  predicate Orderly(run: seq<Step>) {
    forall k | 0 <= k < |run| :: IsOrderly(run[k])
  }

  /** The owner is gone, the guardian has nothing left to hold, and the worker is dead. */
  predicate Over(l: Lineage) {
    && l.owner == Gone && !l.worker
    && l.guardian !in {Starting, Launching, Ready, Cleaning}
  }

  predicate AllOver(s: Session) {
    s.client.None? && forall n | n in s.lineages :: Over(s.lineages[n])
  }

  /** An orderly run leads from s to t. */
  ghost predicate Reaches(s: Session, run: seq<Step>, t: Session) {
    Orderly(run) && Legal(Apply, Enabled, s, run) && StateAfter(Apply, s, run, |run|) == t
  }

  lemma ReachesItself(s: Session)
    ensures Reaches(s, [], s)
  {
  }

  lemma ReachesFirst(s: Session, step: Step, run: seq<Step>, t: Session)
    requires IsOrderly(step) && Enabled(s, step) && Reaches(Apply(s, step), run, t)
    ensures Reaches(s, [step] + run, t)
  {
    assert StateAfter(Apply, s, [step], 1) == Apply(StateAfter(Apply, s, [step], 0), step);
    assert Legal(Apply, Enabled, s, [step]);
    Join(Apply, Enabled, s, [step], Apply(s, step), run, t);
  }

  lemma ReachesOn(s: Session, run: seq<Step>, middle: Session, more: seq<Step>, t: Session)
    requires Reaches(s, run, middle) && Reaches(middle, more, t)
    ensures Reaches(s, run + more, t)
  {
    Join(Apply, Enabled, s, run, middle, more, t);
  }

  // ---------------------------------------------------------------- one lineage

  /** What a lineage does next on its way out. */
  function NextStep(l: Lineage, lockIsFree: bool): LineageStep {
    match l.guardian
    case Starting => GuardianStartFailed
    case Launching => GuardianAbort
    case Ready => GuardianBreak
    case Cleaning => GuardianCleaned(true)
    case _ =>
      match l.owner
      case Spawned => if lockIsFree then OwnerLock else OwnerLockBusy
      case Locked => OwnerStartupFailed
      case AwaitReady => if l.line then OwnerReady else OwnerStartupFailed
      case Running => OwnerClose
      case Closing => if l.guardian == Exited(true) then OwnerReaped else OwnerSweep
      case Sweeping => OwnerSwept
      case Gone => WorkerExit
  }

  function OwnerRank(p: OwnerPhase): nat {
    match p
    case Spawned => 6
    case Locked => 5
    case AwaitReady => 4
    case Running => 3
    case Closing => 2
    case Sweeping => 1
    case Gone => 0
  }

  function GuardianRank(p: GuardianPhase): nat {
    match p
    case Starting => 2
    case Launching => 2
    case Ready => 2
    case Cleaning => 1
    case _ => 0
  }

  function Rank(l: Lineage): nat {
    OwnerRank(l.owner) + GuardianRank(l.guardian) + if l.worker then 1 else 0
  }

  lemma NextStepWorks(l: Lineage, lockIsFree: bool)
    requires LineageOk(l) && !Over(l)
    ensures var step := NextStep(l, lockIsFree);
            LineageEnabled(l, step) && Rank(LineageApply(l, step)) < Rank(l)
  {
  }

  /** One lineage is brought to its end, and the rest of the session stays as it is. */
  lemma {:induction false} LineageEnds(s: Session, n: nat) returns (run: seq<Step>, last: Lineage)
    requires Invariant(s) && s.client.None? && n in s.lineages
    ensures Over(last) && Reaches(s, run, s.(lineages := s.lineages[n := last]))
    ensures Invariant(s.(lineages := s.lineages[n := last]))
    decreases Rank(s.lineages[n])
  {
    var l := s.lineages[n];
    if Over(l) {
      run, last := [], l;
      assert s.(lineages := s.lineages[n := l]) == s;
      ReachesItself(s);
    } else {
      var step := OfLineage(n, NextStep(l, LockFree(s)));
      NextStepWorks(l, LockFree(s));
      SessionFence.StepKeeps(s, step);
      var t := Apply(s, step);
      run, last := LineageEnds(t, n);
      assert t.(lineages := t.lineages[n := last]) == s.(lineages := s.lineages[n := last]);
      ReachesFirst(s, step, run, s.(lineages := s.lineages[n := last]));
      run := [step] + run;
    }
  }

  // ---------------------------------------------------------------- the whole session

  function Unfinished(s: Session): set<nat> {
    set n | n in s.lineages && !Over(s.lineages[n])
  }

  lemma {:induction false} LineagesEnd(s: Session) returns (run: seq<Step>, t: Session)
    requires Invariant(s) && s.client.None?
    ensures Reaches(s, run, t) && AllOver(t) && t.lineages.Keys == s.lineages.Keys
    decreases |Unfinished(s)|
  {
    if n :| n in Unfinished(s) {
      var first, last := LineageEnds(s, n);
      var middle := s.(lineages := s.lineages[n := last]);
      assert Unfinished(middle) == Unfinished(s) - {n};
      var more;
      more, t := LineagesEnd(middle);
      ReachesOn(s, first, middle, more, t);
      run := first + more;
    } else {
      run, t := [], s;
      ReachesItself(s);
      forall n | n in s.lineages
        ensures Over(s.lineages[n])
      {
        assert n !in Unfinished(s);
      }
    }
  }

  function NextClientStep(p: ClientPhase): ClientStep {
    match p
    case Connecting => AttachGiveUp
    case AttachProbe => AttachRelease
    case AttachSpawning => AttachGiveUp
    case WaitingForOwner => AttachGiveUp
    case Stopping => StopGiveUp
    case StopProbe => StopRelease
    case StopReturning => StopDone
  }

  function ClientRank(s: Session): nat {
    if s.client.None? then 0
    else if s.client.value.phase in {AttachProbe, StopProbe} then 2 else 1
  }

  lemma {:induction false} ClientEnds(s: Session) returns (run: seq<Step>)
    requires Invariant(s)
    ensures Reaches(s, run, s.(client := None)) && Invariant(s.(client := None))
    decreases ClientRank(s)
  {
    if s.client.None? {
      run := [];
      ReachesItself(s);
    } else {
      var step := OfClient(NextClientStep(s.client.value.phase));
      SessionFence.StepKeeps(s, step);
      run := ClientEnds(Apply(s, step));
      ReachesFirst(s, step, run, s.(client := None));
      run := [step] + run;
    }
  }

  /**
    From every state a session can reach, crashes included, some orderly steps
    lead to an end: no client, no owner, no guardian that holds the lock, no live
    worker. So stop never waits for something that cannot happen.
   */
  lemma EverySessionWindsDown(past: seq<Step>) returns (run: seq<Step>)
    requires Run(past)
    ensures Run(past + run) && Orderly(run)
    ensures AllOver(After(past + run, |past + run|)) && LockFree(After(past + run, |past + run|))
  {
    SessionFence.RunKeeps(past, |past|);
    var s := After(past, |past|);
    var first := ClientEnds(s);
    var more, t := LineagesEnd(s.(client := None));
    ReachesOn(s, first, s.(client := None), more, t);
    run := first + more;
    Join(Apply, Enabled, EMPTY, past, s, run, t);
  }

  // ---------------------------------------------------------------- lives in full

  /** A client gets through only to an owner that runs, behind a readiness line and under the lock. */
  lemma ConnectedIsServed(run: seq<Step>, k: nat)
    requires Run(run) && k < |run| && run[k] == OfClient(AttachConnected)
    ensures exists n | n in After(run, k).lineages ::
              var l := After(run, k).lineages[n]; l.owner == Running && l.line && Holds(l)
  {
    SessionFence.RunKeeps(run, k);
    assert Enabled(After(run, k), run[k]);
    var n :| n in After(run, k).lineages && After(run, k).lineages[n].owner.Running?;
    assert LineageOk(After(run, k).lineages[n]);
  }

  const SERVED := Only(Lineage(Running, Ready, true, true, false))
  const STOPPED := Only(Lineage(Gone, Exited(true), false, true, false))
  const SWEPT_FOR := Only(Lineage(Gone, Killed, false, true, false))
  const SWEPT_AFTER := Only(Lineage(Gone, Exited(false), false, true, false))

  function Serve(): seq<Step> {
    [OfLineage(0, GuardianReady), OfLineage(0, OwnerReady), OfClient(AttachConnected)]
  }

  function Refuse(id: nat): seq<Step> {
    [OfClient(AttachStart(id)), OfClient(AttachProbeBusy)]
  }

  function Rejoin(id: nat): seq<Step> {
    [OfClient(AttachStart(id)), OfClient(AttachConnected)]
  }

  function Close(id: nat): seq<Step> {
    [OfClient(StopStart(id)), OfLineage(0, OwnerClose), OfLineage(0, GuardianBreak),
     OfLineage(0, GuardianCleaned(true)), OfLineage(0, OwnerReaped)]
  }

  function Report(): seq<Step> {
    [OfClient(StopAcquire), OfClient(StopRelease), OfClient(StopDone)]
  }

  function SweepForKilled(): seq<Step> {
    [OfLineage(0, GuardianKill), OfLineage(0, OwnerClose), OfLineage(0, OwnerSweep), OfLineage(0, OwnerSwept)]
  }

  function SweepAfterFailure(): seq<Step> {
    [OfLineage(0, GuardianBreak), OfLineage(0, GuardianCleaned(false)),
     OfLineage(0, OwnerClose), OfLineage(0, OwnerSweep), OfLineage(0, OwnerSwept)]
  }

  function By(l: Lineage, id: nat, phase: ClientPhase): Session {
    Session(map[0 := l], Some(Client(id, phase)))
  }

  lemma ServeWorks()
    ensures Leads(Launched(EMPTY, 0), Serve(), SERVED)
  {
    var running := By(Lineage(Running, Ready, true, true, false), 0, WaitingForOwner);
    assert running.lineages[0].owner.Running?;
    assert Launched(EMPTY, 0) == By(Lineage(AwaitReady, Launching, true, false, false), 0, WaitingForOwner);
    PassesLegal(
      [Launched(EMPTY, 0), By(Lineage(AwaitReady, Ready, true, true, false), 0, WaitingForOwner), running, SERVED],
      Serve());
  }

  lemma SecondClientWorks(id: nat)
    ensures Leads(SERVED, Refuse(id), SERVED) && Leads(SERVED, Rejoin(id), SERVED)
  {
    var asked := By(Lineage(Running, Ready, true, true, false), id, Connecting);
    assert Holds(asked.lineages[0]);
    PassesLegal([SERVED, asked, SERVED], Refuse(id));
    PassesLegal([SERVED, asked, SERVED], Rejoin(id));
  }

  lemma CloseBegins(id: nat)
    ensures Leads(SERVED, Close(id)[..2], By(Lineage(Closing, Ready, true, true, false), id, Stopping))
  {
    PassesLegal(
      [SERVED, By(Lineage(Running, Ready, true, true, false), id, Stopping),
       By(Lineage(Closing, Ready, true, true, false), id, Stopping)], Close(id)[..2]);
  }

  lemma CloseEnds(id: nat)
    ensures Leads(By(Lineage(Closing, Ready, true, true, false), id, Stopping), Close(id)[2..],
                  By(Lineage(Gone, Exited(true), false, true, false), id, Stopping))
  {
    PassesLegal(
      [By(Lineage(Closing, Ready, true, true, false), id, Stopping),
       By(Lineage(Closing, Cleaning, true, true, false), id, Stopping),
       By(Lineage(Closing, Exited(true), false, true, false), id, Stopping),
       By(Lineage(Gone, Exited(true), false, true, false), id, Stopping)], Close(id)[2..]);
  }

  lemma CloseWorks(id: nat)
    ensures Leads(SERVED, Close(id), By(Lineage(Gone, Exited(true), false, true, false), id, Stopping))
  {
    CloseBegins(id);
    CloseEnds(id);
    assert Close(id)[..2] + Close(id)[2..] == Close(id);
    LeadsOn(SERVED, Close(id)[..2], By(Lineage(Closing, Ready, true, true, false), id, Stopping),
            Close(id)[2..], By(Lineage(Gone, Exited(true), false, true, false), id, Stopping));
  }

  lemma ReportWorks(id: nat)
    ensures Leads(By(Lineage(Gone, Exited(true), false, true, false), id, Stopping), Report(), STOPPED)
  {
    var l := Lineage(Gone, Exited(true), false, true, false);
    assert LockFree(By(l, id, Stopping));
    PassesLegal([By(l, id, Stopping), By(l, id, StopProbe), By(l, id, StopReturning), STOPPED], Report());
  }

  lemma GuardianDies()
    ensures Leads(SERVED, SweepForKilled()[..2], Only(Lineage(Closing, Killed, true, true, false)))
  {
    PassesLegal(
      [SERVED, Only(Lineage(Running, Killed, true, true, false)), Only(Lineage(Closing, Killed, true, true, false))],
      SweepForKilled()[..2]);
  }

  lemma OwnerSweeps()
    ensures Leads(Only(Lineage(Closing, Killed, true, true, false)), SweepForKilled()[2..], SWEPT_FOR)
  {
    PassesLegal(
      [Only(Lineage(Closing, Killed, true, true, false)), Only(Lineage(Sweeping, Killed, true, true, false)),
       SWEPT_FOR],
      SweepForKilled()[2..]);
  }

  lemma GuardianFails()
    ensures Leads(SERVED, SweepAfterFailure()[..2], Only(Lineage(Running, Exited(false), false, true, false)))
  {
    PassesLegal(
      [SERVED, Only(Lineage(Running, Cleaning, true, true, false)),
       Only(Lineage(Running, Exited(false), false, true, false))], SweepAfterFailure()[..2]);
  }

  lemma OwnerSweepsAgain()
    ensures Leads(Only(Lineage(Running, Exited(false), false, true, false)), SweepAfterFailure()[2..], SWEPT_AFTER)
  {
    PassesLegal(
      [Only(Lineage(Running, Exited(false), false, true, false)),
       Only(Lineage(Closing, Exited(false), false, true, false)),
       Only(Lineage(Sweeping, Exited(false), false, true, false)), SWEPT_AFTER], SweepAfterFailure()[2..]);
  }

  lemma SweepsWork()
    ensures Leads(SERVED, SweepForKilled(), SWEPT_FOR) && Leads(SERVED, SweepAfterFailure(), SWEPT_AFTER)
  {
    GuardianDies();
    OwnerSweeps();
    assert SweepForKilled()[..2] + SweepForKilled()[2..] == SweepForKilled();
    LeadsOn(SERVED, SweepForKilled()[..2], Only(Lineage(Closing, Killed, true, true, false)),
            SweepForKilled()[2..], SWEPT_FOR);
    GuardianFails();
    OwnerSweepsAgain();
    assert SweepAfterFailure()[..2] + SweepAfterFailure()[2..] == SweepAfterFailure();
    LeadsOn(SERVED, SweepAfterFailure()[..2], Only(Lineage(Running, Exited(false), false, true, false)),
            SweepAfterFailure()[2..], SWEPT_AFTER);
  }

  /**
    A first client brings the worker up and is connected; while it is served a
    second one may find the lock busy or get through itself; a stop ends the
    worker and reports it; and an owner whose guardian was killed or failed ends
    the worker itself.
   */
  lemma FullLives(id: nat)
    ensures Leads(EMPTY, BringUp(0) + Serve(), SERVED)
    ensures Leads(SERVED, Refuse(id), SERVED) && Leads(SERVED, Rejoin(id), SERVED)
    ensures Leads(SERVED, Close(id) + Report(), STOPPED)
    ensures Leads(SERVED, SweepForKilled(), SWEPT_FOR) && Leads(SERVED, SweepAfterFailure(), SWEPT_AFTER)
  {
    BringUpWorks(EMPTY, 0);
    ServeWorks();
    LeadsOn(EMPTY, BringUp(0), Launched(EMPTY, 0), Serve(), SERVED);
    SecondClientWorks(id);
    CloseWorks(id);
    ReportWorks(id);
    LeadsOn(SERVED, Close(id), By(Lineage(Gone, Exited(true), false, true, false), id, Stopping), Report(), STOPPED);
    SweepsWork();
  }
}

/**
  Who may run a worker for one client identity. Attaching clients, owners,
  guardians, workers and the stop command are coordinated by two file locks; any
  process may be killed at any moment. Every owner that is ever spawned has its
  own lineage of guardian and worker.
 */
module SessionFence {
  import opened Common
  import opened Runs

  datatype OwnerPhase =
    | Spawned      // started, has not tried the owner lock
    | Locked       // holds the lock, has no guardian yet
    | AwaitReady   // guardian started, waiting for its readiness line
    | Running      // worker recorded, serving clients
    | Closing      // guardian's pipe closed, waiting for it to exit
    | Sweeping     // guardian failed: signalling the recorded worker
    | Gone

  datatype GuardianPhase =
    | NotStarted
    | Starting     // has its copy of the lock, no worker yet
    | Launching    // worker spawned, waiting for its socket
    | Ready        // readiness line written
    | Cleaning     // ending the worker
    | Exited(success: bool)
    | Killed
    | Abandoned    // its wait for the worker's socket failed: gone, and the worker left behind

  datatype Lineage = Lineage(
    owner: OwnerPhase, guardian: GuardianPhase, worker: bool, line: bool, ownerCrashed: bool)

  /** The client that holds the startup lock. */
  datatype ClientPhase =
    | Connecting
    | AttachProbe      // has found the owner lock free and still holds it
    | AttachSpawning   // has let go of it again
    | WaitingForOwner
    | Stopping
    | StopProbe        // has found the owner lock free and still holds it
    | StopReturning    // has let go of it again, about to report success

  datatype Client = Client(id: nat, phase: ClientPhase)

  datatype Session = Session(lineages: map<nat, Lineage>, client: Option<Client>)

  const EMPTY := Session(map[], None)

  predicate OwnerHolds(l: Lineage) {
    !l.owner.Spawned? && !l.owner.Gone?
  }

  predicate GuardianHolds(l: Lineage) {
    l.guardian.Starting? || l.guardian.Launching? || l.guardian.Ready? || l.guardian.Cleaning?
  }

  /** The two processes share one lock: it is free when both have let go. */
  predicate Holds(l: Lineage) {
    OwnerHolds(l) || GuardianHolds(l)
  }

  /** A client that has taken the owner lock to see whether it is free. */
  predicate ProbeHolds(s: Session) {
    s.client.Some? && (s.client.value.phase.AttachProbe? || s.client.value.phase.StopProbe?)
  }

  predicate LockFree(s: Session) {
    !ProbeHolds(s) && forall n | n in s.lineages :: !Holds(s.lineages[n])
  }

  datatype ClientStep =
    | AttachStart(id: nat) | AttachConnected | AttachProbeFree | AttachProbeBusy
    | AttachRelease | AttachSpawn(lineage: nat) | AttachGiveUp
    | StopStart(id: nat) | StopAcquire | StopRelease | StopDone | StopGiveUp
    | ClientCrash

  datatype LineageStep =
    | OwnerLock | OwnerLockBusy | OwnerSpawnGuardian | OwnerReady | OwnerStartupFailed
    | OwnerClose | OwnerReaped | OwnerSweep | OwnerSwept | OwnerCrash
    | GuardianSpawnWorker | GuardianStartFailed | GuardianAbort | GuardianReady
    | GuardianBreak | GuardianCleaned(success: bool) | GuardianKill | GuardianAbandon
    | WorkerExit

  datatype Step = OfClient(c: ClientStep) | OfLineage(n: nat, l: LineageStep)

  // ---------------------------------------------------------------- one lineage

  predicate LineageEnabled(l: Lineage, s: LineageStep) {
    match s
    case OwnerLock => l.owner.Spawned?
    case OwnerLockBusy => l.owner.Spawned?
    case OwnerSpawnGuardian => l.owner.Locked?
    case OwnerReady => l.owner.AwaitReady? && l.line
    case OwnerStartupFailed => l.owner.Locked? || (l.owner.AwaitReady? && !l.line && !GuardianHolds(l))
    case OwnerClose => l.owner.Running?
    case OwnerReaped => l.owner.Closing? && l.guardian == Exited(true)
    case OwnerSweep => l.owner.Closing? && (l.guardian == Exited(false) || l.guardian.Killed?)
    case OwnerSwept => l.owner.Sweeping?
    case OwnerCrash => !l.owner.Gone?
    case GuardianSpawnWorker => l.guardian.Starting?
    case GuardianStartFailed => l.guardian.Starting?
    case GuardianAbort => l.guardian.Launching?
    case GuardianReady => l.guardian.Launching?
    case GuardianBreak => l.guardian.Ready?  // the pipe closed, the server exited, or waiting failed
    case GuardianCleaned(_) => l.guardian.Cleaning?
    case GuardianKill => GuardianHolds(l)
    case GuardianAbandon => l.guardian.Launching?
    case WorkerExit => l.worker
  }

  function LineageApply(l: Lineage, s: LineageStep): Lineage {
    match s
    case OwnerLock => l.(owner := Locked)
    case OwnerLockBusy => l.(owner := Gone)
    case OwnerSpawnGuardian => l.(owner := AwaitReady, guardian := Starting)
    case OwnerReady => l.(owner := Running)
    case OwnerStartupFailed => l.(owner := Gone)
    case OwnerClose => l.(owner := Closing)
    case OwnerReaped => l.(owner := Gone)
    case OwnerSweep => l.(owner := Sweeping)
    case OwnerSwept => l.(owner := Gone, worker := false)
    case OwnerCrash => l.(owner := Gone, ownerCrashed := true)
    case GuardianSpawnWorker => l.(guardian := Launching, worker := true)
    case GuardianStartFailed => l.(guardian := Exited(false))
    case GuardianAbort => l.(guardian := Exited(false), worker := false)
    case GuardianReady => l.(guardian := Ready, line := true)
    case GuardianBreak => l.(guardian := Cleaning)
    case GuardianCleaned(success) => l.(guardian := Exited(success), worker := false)
    case GuardianKill => l.(guardian := Killed)
    case GuardianAbandon => l.(guardian := Abandoned)
    case WorkerExit => l.(worker := false)
  }

  // ---------------------------------------------------------------- the whole session

  predicate ClientIn(s: Session, p: ClientPhase) {
    s.client.Some? && s.client.value.phase == p
  }

  predicate ClientEnabled(s: Session, c: ClientStep) {
    match c
    case AttachStart(_) => s.client.None?
    case AttachConnected =>
      (ClientIn(s, Connecting) || ClientIn(s, WaitingForOwner))
      && exists n | n in s.lineages :: s.lineages[n].owner.Running?
    case AttachProbeFree => ClientIn(s, Connecting) && LockFree(s)
    case AttachProbeBusy => ClientIn(s, Connecting) && !LockFree(s)
    case AttachRelease => ClientIn(s, AttachProbe)
    case AttachSpawn(n) => ClientIn(s, AttachSpawning) && n !in s.lineages
    case AttachGiveUp => ClientIn(s, Connecting) || ClientIn(s, AttachSpawning) || ClientIn(s, WaitingForOwner)
    case StopStart(_) => s.client.None?
    case StopAcquire => ClientIn(s, Stopping) && LockFree(s)
    case StopRelease => ClientIn(s, StopProbe)
    case StopDone => ClientIn(s, StopReturning)
    case StopGiveUp => ClientIn(s, Stopping)
    case ClientCrash => s.client.Some?
  }

  const NEWBORN := Lineage(Spawned, NotStarted, false, false, false)

  /** The same client in another phase. */
  function InPhase(s: Session, phase: ClientPhase): Session {
    if s.client.Some? then s.(client := Some(Client(s.client.value.id, phase))) else s
  }

  function ClientApply(s: Session, c: ClientStep): Session {
    match c
    case AttachStart(id) => s.(client := Some(Client(id, Connecting)))
    case AttachProbeFree => InPhase(s, AttachProbe)
    case AttachRelease => InPhase(s, AttachSpawning)
    case AttachSpawn(n) => InPhase(s.(lineages := s.lineages[n := NEWBORN]), WaitingForOwner)
    case StopStart(id) => s.(client := Some(Client(id, Stopping)))
    case StopAcquire => InPhase(s, StopProbe)
    case StopRelease => InPhase(s, StopReturning)
    case AttachConnected => s.(client := None)
    case AttachProbeBusy => s.(client := None)
    case AttachGiveUp => s.(client := None)
    case StopDone => s.(client := None)
    case StopGiveUp => s.(client := None)
    case ClientCrash => s.(client := None)
  }

  predicate Enabled(s: Session, step: Step) {
    match step
    case OfClient(c) => ClientEnabled(s, c)
    case OfLineage(n, l) =>
      && n in s.lineages
      && LineageEnabled(s.lineages[n], l)
      && (l.OwnerLock? ==> LockFree(s))
      && (l.OwnerLockBusy? ==> !LockFree(s))
  }

  function Apply(s: Session, step: Step): Session {
    match step
    case OfClient(c) => ClientApply(s, c)
    case OfLineage(n, l) =>
      if n in s.lineages then s.(lineages := s.lineages[n := LineageApply(s.lineages[n], l)]) else s
  }

  function After(run: seq<Step>, k: nat): Session
    requires k <= |run|
  {
    StateAfter(Apply, EMPTY, run, k)
  }

  predicate Run(run: seq<Step>) {
    Legal(Apply, Enabled, EMPTY, run)
  }

  // ---------------------------------------------------------------- the invariant

  /** The ways a worker can be left without a fence. */
  predicate Orphaned(l: Lineage) {
    l.guardian.Abandoned? || (l.guardian.Killed? && (!l.line || l.ownerCrashed))
  }

  predicate LineageOk(l: Lineage) {
    && (l.worker ==>
          || l.guardian.Launching? || l.guardian.Ready? || l.guardian.Cleaning?
          || l.guardian.Killed? || l.guardian.Abandoned?)
    && (l.guardian.Abandoned? ==> !l.line)
    && (l.worker && l.guardian.Killed? && !Orphaned(l) ==>
          l.owner.AwaitReady? || l.owner.Running? || l.owner.Closing? || l.owner.Sweeping?)
    && (l.owner.Spawned? || l.owner.Locked? ==> l.guardian.NotStarted?)
    && (l.line ==> !l.guardian.NotStarted? && !l.guardian.Starting? && !l.guardian.Launching?)
    && (l.guardian.Ready? || l.guardian.Cleaning? || l.guardian == Exited(true) ==> l.line)
    && (l.owner.Running? || l.owner.Closing? || l.owner.Sweeping? ==> l.line)
    && (l.owner.Sweeping? || (l.owner.Gone? && !l.ownerCrashed) ==> !GuardianHolds(l))
  }

  predicate Invariant(s: Session) {
    && (forall n | n in s.lineages :: LineageOk(s.lineages[n]))
    && (forall n, m | n in s.lineages && m in s.lineages && Holds(s.lineages[n]) && Holds(s.lineages[m]) :: n == m)
    && (ProbeHolds(s) ==> forall n | n in s.lineages :: !Holds(s.lineages[n]))
  }

  lemma LineageStepKeeps(l: Lineage, s: LineageStep)
    requires LineageOk(l) && LineageEnabled(l, s)
    ensures LineageOk(LineageApply(l, s))
    ensures !s.OwnerLock? && Holds(LineageApply(l, s)) ==> Holds(l)
  {
  }

  lemma ClientStepKeeps(s: Session, c: ClientStep)
    requires Invariant(s) && ClientEnabled(s, c)
    ensures Invariant(ClientApply(s, c))
  {
  }

  lemma StepKeeps(s: Session, step: Step)
    requires Invariant(s) && Enabled(s, step)
    ensures Invariant(Apply(s, step))
  {
    match step
    case OfClient(c) => ClientStepKeeps(s, c);
    case OfLineage(n, l) =>
      LineageStepKeeps(s.lineages[n], l);
      var t := Apply(s, step);
      assert forall m | m in s.lineages && m != n :: t.lineages[m] == s.lineages[m];
  }

  lemma {:induction false} RunKeeps(run: seq<Step>, k: nat)
    requires Run(run) && k <= |run|
    ensures Invariant(After(run, k))
    decreases k
  {
    if k > 0 {
      RunKeeps(run, k - 1);
      StepKeeps(After(run, k - 1), run[k - 1]);
    }
  }

  // ---------------------------------------------------------------- safety

  /** A live worker is fenced: its owner or guardian still holds the owner lock, unless it was orphaned. */
  lemma LiveWorkerIsFenced(run: seq<Step>, k: nat, n: nat)
    requires Run(run) && k <= |run| && n in After(run, k).lineages
    ensures var l := After(run, k).lineages[n];
            l.worker && !Orphaned(l) ==> Holds(l)
  {
    RunKeeps(run, k);
  }

  predicate FencedWorker(s: Session, n: nat) {
    n in s.lineages && s.lineages[n].worker && !Orphaned(s.lineages[n])
  }

  /** Over every interleaving at most one worker lives, orphans apart. */
  lemma AtMostOneWorker(run: seq<Step>, k: nat)
    requires Run(run) && k <= |run|
    ensures forall n, m | FencedWorker(After(run, k), n) && FencedWorker(After(run, k), m) :: n == m
  {
    RunKeeps(run, k);
    forall n | FencedWorker(After(run, k), n)
      ensures Holds(After(run, k).lineages[n])
    {
      LiveWorkerIsFenced(run, k, n);
    }
  }

  /** No worker lives but orphans. */
  predicate NoWorker(s: Session) {
    forall n | n in s.lineages && s.lineages[n].worker :: Orphaned(s.lineages[n])
  }

  /** A new owner gets past the lock, an attach finds it free, and stop returns, only when no worker lives. */
  lemma PastTheLockNoWorker(run: seq<Step>, k: nat)
    requires Run(run) && k < |run|
    requires (run[k].OfLineage? && run[k].l.OwnerLock?)
          || (run[k].OfClient? && (run[k].c.StopAcquire? || run[k].c.AttachProbeFree?))
    ensures NoWorker(After(run, k)) && NoWorker(After(run, k + 1))
  {
    var s := After(run, k);
    assert Enabled(s, run[k]);
    RunKeeps(run, k);
    RunKeeps(run, k + 1);
    forall n | n in s.lineages
      ensures s.lineages[n].worker ==> Orphaned(s.lineages[n])
    {
      LiveWorkerIsFenced(run, k, n);
    }
  }

  /** While stop holds the lock it has found free, no worker lives, no owner starts and no worker appears. */
  lemma StopExcludesOwners(run: seq<Step>, k: nat)
    requires Run(run) && k <= |run| && ClientIn(After(run, k), StopProbe)
    ensures NoWorker(After(run, k))
    ensures forall n, l :: Enabled(After(run, k), OfLineage(n, l)) ==> !l.OwnerLock? && !l.GuardianSpawnWorker?
  {
    RunKeeps(run, k);
    var s := After(run, k);
    forall n | n in s.lineages
      ensures s.lineages[n].worker ==> Orphaned(s.lineages[n])
      ensures !s.lineages[n].guardian.Starting?
    {
      LiveWorkerIsFenced(run, k, n);
    }
  }

  // ---------------------------------------------------------------- the exceptions are real

  /** From a free lock, a client can bring up a lineage with a live worker. */
  function BringUp(n: nat): seq<Step> {
    [OfClient(AttachStart(n)), OfClient(AttachProbeFree), OfClient(AttachRelease), OfClient(AttachSpawn(n)),
     OfLineage(n, OwnerLock), OfLineage(n, OwnerSpawnGuardian), OfLineage(n, GuardianSpawnWorker)]
  }

  /** These states are the ones a run of steps passes through. */
  predicate Passes(states: seq<Session>, steps: seq<Step>) {
    && |states| == |steps| + 1
    && forall k | 0 <= k < |steps| :: Enabled(states[k], steps[k]) && Apply(states[k], steps[k]) == states[k + 1]
  }

  lemma {:induction false} PassesStates(states: seq<Session>, steps: seq<Step>, k: nat)
    requires Passes(states, steps) && k <= |steps|
    ensures StateAfter(Apply, states[0], steps, k) == states[k]
    decreases k
  {
    if k > 0 {
      PassesStates(states, steps, k - 1);
    }
  }

  lemma PassesLegal(states: seq<Session>, steps: seq<Step>)
    requires Passes(states, steps)
    ensures Legal(Apply, Enabled, states[0], steps)
    ensures StateAfter(Apply, states[0], steps, |steps|) == states[|steps|]
  {
    forall k | 0 <= k <= |steps|
      ensures StateAfter(Apply, states[0], steps, k) == states[k]
    {
      PassesStates(states, steps, k);
    }
  }

  function Launched(s: Session, n: nat): Session {
    Session(s.lineages[n := Lineage(AwaitReady, Launching, true, false, false)], Some(Client(n, WaitingForOwner)))
  }

  predicate Leads(s: Session, steps: seq<Step>, last: Session) {
    Legal(Apply, Enabled, s, steps) && StateAfter(Apply, s, steps, |steps|) == last
  }

  lemma LeadsOn(s: Session, steps: seq<Step>, middle: Session, more: seq<Step>, last: Session)
    requires Leads(s, steps, middle) && Leads(middle, more, last)
    ensures Leads(s, steps + more, last)
  {
    Join(Apply, Enabled, s, steps, middle, more, last);
  }

  lemma AttachWorks(s: Session, n: nat)
    requires s.client.None? && LockFree(s) && n !in s.lineages
    ensures Leads(s, BringUp(n)[..4], Session(s.lineages[n := NEWBORN], Some(Client(n, WaitingForOwner))))
  {
    var states := [
      s,
      s.(client := Some(Client(n, Connecting))),
      s.(client := Some(Client(n, AttachProbe))),
      s.(client := Some(Client(n, AttachSpawning))),
      Session(s.lineages[n := NEWBORN], Some(Client(n, WaitingForOwner)))];
    assert LockFree(states[1]);
    PassesLegal(states, BringUp(n)[..4]);
  }

  lemma LaunchWorks(s: Session, n: nat)
    requires s.client == Some(Client(n, WaitingForOwner)) && LockFree(s)
    requires n in s.lineages && s.lineages[n] == NEWBORN
    ensures Leads(s, BringUp(n)[4..], Launched(s, n))
  {
    var states := [
      s,
      s.(lineages := s.lineages[n := NEWBORN.(owner := Locked)]),
      s.(lineages := s.lineages[n := NEWBORN.(owner := AwaitReady, guardian := Starting)]),
      Launched(s, n)];
    PassesLegal(states, BringUp(n)[4..]);
  }

  lemma BringUpWorks(s: Session, n: nat)
    requires s.client.None? && LockFree(s) && n !in s.lineages
    ensures Leads(s, BringUp(n), Launched(s, n))
  {
    var middle := Session(s.lineages[n := NEWBORN], Some(Client(n, WaitingForOwner)));
    AttachWorks(s, n);
    LaunchWorks(middle, n);
    assert Launched(middle, n) == Launched(s, n);
    assert BringUp(n)[..4] + BringUp(n)[4..] == BringUp(n);
    LeadsOn(s, BringUp(n)[..4], middle, BringUp(n)[4..], Launched(s, n));
  }

  /** A reachable state with the lock free and no client waiting. */
  predicate Open(run: seq<Step>) {
    Run(run) && After(run, |run|).client.None? && LockFree(After(run, |run|))
  }

  /** From there a second live worker can appear beside a live one, which is then always an orphan. */
  lemma OrphanAdmitsSecond(run: seq<Step>, n: nat, m: nat)
    requires Open(run) && n in After(run, |run|).lineages && m !in After(run, |run|).lineages
    requires After(run, |run|).lineages[n].worker
    ensures Orphaned(After(run, |run|).lineages[n])
    ensures var longer := run + BringUp(m);
            var s := After(longer, |longer|);
            Run(longer) && n in s.lineages && m in s.lineages && s.lineages[n].worker && s.lineages[m].worker
  {
    LiveWorkerIsFenced(run, |run|, n);
    BringUpWorks(After(run, |run|), m);
    LeadsOn(EMPTY, run, After(run, |run|), BringUp(m), Launched(After(run, |run|), m));
  }

  /** Guardian killed before its readiness line: the owner knows no worker to sweep. */
  function EarlyKill(): seq<Step> {
    [OfClient(ClientCrash), OfLineage(0, GuardianKill), OfLineage(0, OwnerStartupFailed)]
  }

  /** Guardian gone in its wait for the worker's socket, without ending the worker. */
  function Abandon(): seq<Step> {
    [OfClient(ClientCrash), OfLineage(0, GuardianAbandon), OfLineage(0, OwnerStartupFailed)]
  }

  /** Owner and guardian both killed. */
  function DoubleKill(): seq<Step> {
    [OfClient(ClientCrash), OfLineage(0, GuardianReady), OfLineage(0, GuardianKill), OfLineage(0, OwnerCrash)]
  }

  function Only(l: Lineage): Session {
    Session(map[0 := l], None)
  }

  const EARLY_ORPHAN := Lineage(Gone, Killed, true, false, false)
  const LEFT_ORPHAN := Lineage(Gone, Abandoned, true, false, false)
  const LATE_ORPHAN := Lineage(Gone, Killed, true, true, true)

  lemma EarlyKillWorks()
    ensures Leads(Launched(EMPTY, 0), EarlyKill(), Only(EARLY_ORPHAN))
  {
    var states := [
      Launched(EMPTY, 0),
      Only(Lineage(AwaitReady, Launching, true, false, false)),
      Only(Lineage(AwaitReady, Killed, true, false, false)),
      Only(EARLY_ORPHAN)];
    PassesLegal(states, EarlyKill());
  }

  lemma AbandonWorks()
    ensures Leads(Launched(EMPTY, 0), Abandon(), Only(LEFT_ORPHAN))
  {
    var states := [
      Launched(EMPTY, 0),
      Only(Lineage(AwaitReady, Launching, true, false, false)),
      Only(Lineage(AwaitReady, Abandoned, true, false, false)),
      Only(LEFT_ORPHAN)];
    PassesLegal(states, Abandon());
  }

  const SERVING := Only(Lineage(AwaitReady, Ready, true, true, false))

  lemma GuardianReadyWorks()
    ensures Leads(Launched(EMPTY, 0), DoubleKill()[..2], SERVING)
  {
    PassesLegal(
      [Launched(EMPTY, 0), Only(Lineage(AwaitReady, Launching, true, false, false)), SERVING], DoubleKill()[..2]);
  }

  lemma BothKillsWork()
    ensures Leads(SERVING, DoubleKill()[2..], Only(LATE_ORPHAN))
  {
    PassesLegal(
      [SERVING, Only(Lineage(AwaitReady, Killed, true, true, false)), Only(LATE_ORPHAN)], DoubleKill()[2..]);
  }

  lemma DoubleKillWorks()
    ensures Leads(Launched(EMPTY, 0), DoubleKill(), Only(LATE_ORPHAN))
  {
    GuardianReadyWorks();
    BothKillsWork();
    assert DoubleKill()[..2] + DoubleKill()[2..] == DoubleKill();
    LeadsOn(Launched(EMPTY, 0), DoubleKill()[..2], SERVING, DoubleKill()[2..], Only(LATE_ORPHAN));
  }

  /** Steps from the launched worker lead to this orphan, with the lock free beside it. */
  predicate LeadsToOrphan(steps: seq<Step>, orphan: Lineage) {
    var run := BringUp(0) + steps;
    Open(run) && After(run, |run|) == Only(orphan) && orphan.worker && Orphaned(orphan)
  }

  lemma OrphanReached(steps: seq<Step>, orphan: Lineage)
    requires Leads(Launched(EMPTY, 0), steps, Only(orphan))
    requires orphan.worker && Orphaned(orphan) && !Holds(orphan)
    ensures LeadsToOrphan(steps, orphan)
  {
    BringUpWorks(EMPTY, 0);
    LeadsOn(EMPTY, BringUp(0), Launched(EMPTY, 0), steps, Only(orphan));
  }

  /** Every kind of orphan can be reached, with the lock free beside it. */
  lemma OrphansAreReachable()
    ensures LeadsToOrphan(EarlyKill(), EARLY_ORPHAN)
    ensures LeadsToOrphan(Abandon(), LEFT_ORPHAN)
    ensures LeadsToOrphan(DoubleKill(), LATE_ORPHAN)
  {
    EarlyKillWorks();
    OrphanReached(EarlyKill(), EARLY_ORPHAN);
    AbandonWorks();
    OrphanReached(Abandon(), LEFT_ORPHAN);
    DoubleKillWorks();
    OrphanReached(DoubleKill(), LATE_ORPHAN);
  }

  // ---------------------------------------------------------------- what a successful stop proves

  predicate StopUnderWay(s: Session) {
    ClientIn(s, StopProbe) || ClientIn(s, StopReturning)
  }

  /** Steps that can follow before stop has returned. */
  ghost predicate BeforeReturn(s: Session, run: seq<Step>) {
    && Legal(Apply, Enabled, s, run)
    && forall k: nat | k <= |run| :: StopUnderWay(StateAfter(Apply, s, run, k))
  }

  /** Every owner and guardian is gone, and no worker lives but orphans. */
  predicate AllGone(s: Session) {
    forall n | n in s.lineages ::
      s.lineages[n].owner.Gone? && !GuardianHolds(s.lineages[n]) && (s.lineages[n].worker ==> Orphaned(s.lineages[n]))
  }

  lemma AllGoneStays(s: Session, step: Step)
    ensures Runs.StepKeeps(Apply, Enabled, AllGone, StopUnderWay, s, step)
  {
  }

  lemma AllGoneThroughout(s: Session, run: seq<Step>)
    requires AllGone(s) && BeforeReturn(s, run)
    ensures AllGone(StateAfter(Apply, s, run, |run|))
  {
    forall a, e
      ensures Runs.StepKeeps(Apply, Enabled, AllGone, StopUnderWay, a, e)
    {
      AllGoneStays(a, e);
    }
    Runs.RunKeeps(Apply, Enabled, AllGone, StopUnderWay, s, run, |run|);
  }

  /** Stop is at its probe, and this owner was spawned but has not tried the lock yet. */
  predicate HasLateOwner(s: Session, n: nat) {
    ClientIn(s, StopProbe) && n in s.lineages && s.lineages[n].owner.Spawned?
  }

  ghost predicate LateOwner(s: Session) {
    exists n :: HasLateOwner(s, n)
  }

  function LateStart(n: nat): seq<Step> {
    [OfClient(StopRelease), OfLineage(n, OwnerLock), OfLineage(n, OwnerSpawnGuardian),
     OfLineage(n, GuardianSpawnWorker)]
  }

  function LateStates(s: Session, n: nat): seq<Session>
    requires n in s.lineages
  {
    var l, t := s.lineages[n], InPhase(s, StopReturning);
    [s, t,
     t.(lineages := s.lineages[n := l.(owner := Locked)]),
     t.(lineages := s.lineages[n := l.(owner := AwaitReady, guardian := Starting)]),
     t.(lineages := s.lineages[n := l.(owner := AwaitReady, guardian := Launching, worker := true)])]
  }

  lemma LateStartPasses(s: Session, n: nat)
    requires Invariant(s) && HasLateOwner(s, n)
    ensures Passes(LateStates(s, n), LateStart(n))
  {
    LateOwnerLocks(s, n);
    LateOwnerLaunches(s, n);
  }

  lemma LateOwnerLocks(s: Session, n: nat)
    requires Invariant(s) && HasLateOwner(s, n)
    ensures Passes(LateStates(s, n)[..3], LateStart(n)[..2])
  {
    assert LockFree(LateStates(s, n)[1]);
  }

  lemma LateOwnerLaunches(s: Session, n: nat)
    requires Invariant(s) && HasLateOwner(s, n)
    ensures Passes(LateStates(s, n)[2..], LateStart(n)[2..])
  {
    assert LineageOk(s.lineages[n]);
  }

  /** It may still bring up a worker between the probe and the return. */
  lemma LateOwnerStarts(s: Session, n: nat)
    requires Invariant(s) && HasLateOwner(s, n)
    ensures BeforeReturn(s, LateStart(n)) && !NoWorker(StateAfter(Apply, s, LateStart(n), 4))
  {
    var states := LateStates(s, n);
    LateStartPasses(s, n);
    PassesLegal(states, LateStart(n));
    forall k: nat | k <= 4
      ensures StateAfter(Apply, s, LateStart(n), k) == states[k]
    {
      PassesStates(states, LateStart(n), k);
    }
    assert states[4].lineages[n].worker && !Orphaned(states[4].lineages[n]);
  }

  /**
    From its probe until it returns, stop excludes live workers exactly when no
    owner was waiting to try the lock at the probe: the lock is let go before
    the return, and an owner whose client died behind the spawn may take it.
   */
  lemma StopIsFinalIff(s: Session)
    requires Invariant(s) && ClientIn(s, StopProbe)
    ensures (forall run | BeforeReturn(s, run) :: NoWorker(StateAfter(Apply, s, run, |run|))) <==> !LateOwner(s)
  {
    if n :| HasLateOwner(s, n) {
      LateOwnerStarts(s, n);
    } else {
      forall n | n in s.lineages
        ensures s.lineages[n].owner.Gone? && (s.lineages[n].worker ==> Orphaned(s.lineages[n]))
      {
        assert LineageOk(s.lineages[n]) && !Holds(s.lineages[n]) && !HasLateOwner(s, n);
      }
      forall run | BeforeReturn(s, run)
        ensures NoWorker(StateAfter(Apply, s, run, |run|))
      {
        AllGoneThroughout(s, run);
      }
    }
  }

  function LeftBehind(): seq<Step> {
    [OfClient(ClientCrash), OfClient(StopStart(0)), OfClient(StopAcquire)]
  }

  const NOT_YET_LOCKED := Session(map[0 := NEWBORN], Some(Client(0, StopProbe)))

  lemma LeftBehindWorks()
    ensures Leads(Session(map[0 := NEWBORN], Some(Client(0, WaitingForOwner))), LeftBehind(), NOT_YET_LOCKED)
  {
    var states := [
      Session(map[0 := NEWBORN], Some(Client(0, WaitingForOwner))), Only(NEWBORN),
      Session(map[0 := NEWBORN], Some(Client(0, Stopping))), NOT_YET_LOCKED];
    PassesLegal(states, LeftBehind());
  }

  /** A client killed right behind its spawn leaves such an owner to a stop. */
  lemma LateOwnerIsReachable()
    ensures var run := BringUp(0)[..4] + LeftBehind();
            Run(run) && After(run, |run|) == NOT_YET_LOCKED && HasLateOwner(After(run, |run|), 0)
  {
    AttachWorks(EMPTY, 0);
    LeftBehindWorks();
    LeadsOn(EMPTY, BringUp(0)[..4], Session(map[0 := NEWBORN], Some(Client(0, WaitingForOwner))),
            LeftBehind(), NOT_YET_LOCKED);
  }
}

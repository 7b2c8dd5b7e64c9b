/**
  The owner loop's lease: one attachment at a time, a grace period for each
  detached interval, a budget for all of them together and an absolute age.
  Times are milliseconds; every clock reading of an iteration is an input.
 */
module OwnerLease {
  import opened Common

  datatype Config = Config(maxAge: nat, eofGrace: nat, detachBudget: nat)

  /** The loop sleeps this long between iterations. */
  const PAUSE: nat := 50

  datatype Incoming = NoClient | AcceptFailed | ConnectFailed | Connected

  /** What one iteration meets, with its clock readings in the order they are taken. */
  datatype Tick = Tick(
    stopRequested: bool, guardianGone: bool,
    ageAt: nat, graceAt: nat, budgetAt: nat,
    connectionDone: bool, detachAt: nat,
    incoming: Incoming, attachAt: nat,
    unload: bool, end: nat)

  datatype Outcome = Survived | Stopped | RuntimeExited | MaxAge | LeaseExpired | ListenerFailed | Unloaded

  datatype Lease = Lease(birth: nat, detachedAt: Option<nat>, detachedTotal: nat, attached: bool)

  function NewLease(birth: nat): Lease {
    Lease(birth, Some(birth), 0, false)
  }

  function Elapsed(now: nat, since: nat): nat {
    if now < since then 0 else now - since
  }

  predicate LeaseOver(c: Config, l: Lease, t: Tick) {
    l.detachedAt.Some?
    && (Elapsed(t.graceAt, l.detachedAt.value) >= c.eofGrace
        || l.detachedTotal + Elapsed(t.budgetAt, l.detachedAt.value) >= c.detachBudget)
  }

  function Detach(l: Lease, t: Tick): Lease {
    if l.attached && t.connectionDone then l.(attached := false, detachedAt := Some(t.detachAt)) else l
  }

  function Attach(l: Lease, t: Tick): Lease {
    if t.incoming.Connected? && !l.attached then
      l.(attached := true, detachedAt := None,
         detachedTotal := l.detachedTotal + if l.detachedAt.Some? then Elapsed(t.attachAt, l.detachedAt.value) else 0)
    else l
  }

  function Iterate(c: Config, l: Lease, t: Tick): (Lease, Outcome) {
    if t.stopRequested then (l, Stopped)
    else if t.guardianGone then (l, RuntimeExited)
    else if Elapsed(t.ageAt, l.birth) >= c.maxAge then (l, MaxAge)
    else if LeaseOver(c, l, t) then (l, LeaseExpired)
    else if t.incoming.AcceptFailed? then (Detach(l, t), ListenerFailed)
    else (Attach(Detach(l, t), t), if t.unload then Unloaded else Survived)
  }

  class Owner {
    const config: Config
    const birth: nat
    var detachedAt: Option<nat>
    var detachedTotal: nat
    var attached: bool

    constructor (config: Config, now: nat)
      ensures this.config == config && View() == NewLease(now)
    {
      this.config, birth := config, now;
      detachedAt, detachedTotal, attached := Some(now), 0, false;
    }

    function View(): Lease
      reads this
    {
      Lease(birth, detachedAt, detachedTotal, attached)
    }

    method Turn(t: Tick) returns (outcome: Outcome)
      modifies this
      ensures (View(), outcome) == Iterate(config, old(View()), t)
    {
      if t.stopRequested {
        return Stopped;
      }
      if t.guardianGone {
        return RuntimeExited;
      }
      if Elapsed(t.ageAt, birth) >= config.maxAge {
        return MaxAge;
      }
      if detachedAt.Some? {
        var at := detachedAt.value;
        if Elapsed(t.graceAt, at) >= config.eofGrace
           || detachedTotal + Elapsed(t.budgetAt, at) >= config.detachBudget {
          return LeaseExpired;
        }
      }
      if attached && t.connectionDone {
        attached := false;
        detachedAt := Some(t.detachAt);
      }
      match t.incoming {
        case AcceptFailed => return ListenerFailed;
        case Connected =>
          // A client that finds another one attached is refused.
          if !attached {
            if detachedAt.Some? {
              detachedTotal := detachedTotal + Elapsed(t.attachAt, detachedAt.value);
              detachedAt := None;
            }
            attached := true;
          }
        case _ =>
      }
      return if t.unload then Unloaded else Survived;
    }
  }

  // ---------------------------------------------------------------- runs

  function LeaseAfter(c: Config, birth: nat, run: seq<Tick>, n: nat): Lease
    requires n <= |run|
  {
    if n == 0 then NewLease(birth) else Iterate(c, LeaseAfter(c, birth, run, n - 1), run[n - 1]).0
  }

  function OutcomeOf(c: Config, birth: nat, run: seq<Tick>, n: nat): Outcome
    requires n < |run|
  {
    Iterate(c, LeaseAfter(c, birth, run, n), run[n]).1
  }

  /** The clock never runs backwards, and iterations are a pause apart. */
  predicate WellTimed(birth: nat, run: seq<Tick>) {
    && (forall i | 0 <= i < |run| ::
          var t := run[i]; t.ageAt <= t.graceAt <= t.budgetAt <= t.detachAt <= t.attachAt <= t.end)
    && (run != [] ==> birth <= run[0].ageAt)
    && (forall i | 0 < i < |run| :: run[i - 1].end + PAUSE <= run[i].ageAt)
  }

  predicate SurvivedTo(c: Config, birth: nat, run: seq<Tick>, n: nat)
    requires n <= |run|
  {
    forall i | 0 <= i < n :: OutcomeOf(c, birth, run, i).Survived?
  }

  predicate AllSurvived(c: Config, birth: nat, run: seq<Tick>) {
    forall i | 0 <= i < |run| :: OutcomeOf(c, birth, run, i).Survived?
  }

  // ---------------------------------------------------------------- the attachment log

  datatype Entry = Detached(at: nat) | Attached(at: nat)

  predicate EndsAttached(log: seq<Entry>) {
    log != [] && log[|log| - 1].Attached?
  }

  /** What an observer of connections alone writes down. */
  function DetachLog(log: seq<Entry>, t: Tick): seq<Entry> {
    if EndsAttached(log) && t.connectionDone then log + [Detached(t.detachAt)] else log
  }

  function AttachLog(log: seq<Entry>, t: Tick): seq<Entry> {
    if !EndsAttached(log) && t.incoming.Connected? then log + [Attached(t.attachAt)] else log
  }

  function TickLog(log: seq<Entry>, t: Tick): seq<Entry> {
    AttachLog(DetachLog(log, t), t)
  }

  function Log(run: seq<Tick>, n: nat): seq<Entry>
    requires n <= |run|
  {
    if n == 0 then [] else TickLog(Log(run, n - 1), run[n - 1])
  }

  /** When the client was last seen to leave, or the birth of the session. */
  function LeftAt(birth: nat, log: seq<Entry>): nat {
    if log == [] then birth else log[|log| - 1].at
  }

  /** The sum of the completed detached intervals of a log. */
  function CompletedDetachment(birth: nat, log: seq<Entry>): nat {
    if log == [] then 0
    else
      var before := log[..|log| - 1];
      CompletedDetachment(birth, before)
      + if EndsAttached(log) then Max(log[|log| - 1].at, LeftAt(birth, before)) - LeftAt(birth, before) else 0
  }

  ghost predicate Matches(l: Lease, birth: nat, log: seq<Entry>) {
    && l.birth == birth
    && l.attached == EndsAttached(log)
    && l.detachedAt == (if EndsAttached(log) then None else Some(LeftAt(birth, log)))
    && l.detachedTotal == CompletedDetachment(birth, log)
  }

  lemma DetachMatches(l: Lease, birth: nat, log: seq<Entry>, t: Tick)
    requires Matches(l, birth, log)
    ensures Matches(Detach(l, t), birth, DetachLog(log, t))
  {
    assert (log + [Detached(t.detachAt)])[..|log|] == log;
  }

  lemma AttachMatches(l: Lease, birth: nat, log: seq<Entry>, t: Tick)
    requires Matches(l, birth, log)
    ensures Matches(Attach(l, t), birth, AttachLog(log, t))
  {
    assert (log + [Attached(t.attachAt)])[..|log|] == log;
  }

  /**
    The lease is the log. While the loop survives, the birth never moves, the
    detached mark is set exactly while nobody is attached and shows when the
    last client left, and the total is the sum of the completed intervals.
   */
  lemma {:induction false} LeaseIsTheLog(c: Config, birth: nat, run: seq<Tick>, n: nat)
    requires n <= |run| && SurvivedTo(c, birth, run, n)
    ensures Matches(LeaseAfter(c, birth, run, n), birth, Log(run, n))
    decreases n
  {
    if n > 0 {
      LeaseIsTheLog(c, birth, run, n - 1);
      assert OutcomeOf(c, birth, run, n - 1).Survived?;
      TickMatches(c, LeaseAfter(c, birth, run, n - 1), birth, Log(run, n - 1), run[n - 1]);
    }
  }

  lemma TickMatches(c: Config, l: Lease, birth: nat, log: seq<Entry>, t: Tick)
    requires Matches(l, birth, log) && Iterate(c, l, t).1.Survived?
    ensures Matches(Iterate(c, l, t).0, birth, TickLog(log, t))
  {
    DetachMatches(l, birth, log, t);
    AttachMatches(Detach(l, t), birth, DetachLog(log, t), t);
  }

  /** Why the loop ends at an iteration, if it does: the first of these that holds, in this order. */
  function Verdict(c: Config, birth: nat, log: seq<Entry>, t: Tick): Outcome {
    var left := LeftAt(birth, log);
    if t.stopRequested then Stopped
    else if t.guardianGone then RuntimeExited
    else if Max(t.ageAt, birth) - birth >= c.maxAge then MaxAge
    else if !EndsAttached(log)
            && (|| Max(t.graceAt, left) - left >= c.eofGrace
                || CompletedDetachment(birth, log) + Max(t.budgetAt, left) - left >= c.detachBudget) then LeaseExpired
    else if t.incoming == AcceptFailed then ListenerFailed
    else if t.unload then Unloaded
    else Survived
  }

  /** An iteration reached ends the loop exactly for that reason, read off the attachment log and the tick alone. */
  lemma EndsAsDeclared(c: Config, birth: nat, run: seq<Tick>, n: nat)
    requires n < |run| && SurvivedTo(c, birth, run, n)
    ensures OutcomeOf(c, birth, run, n) == Verdict(c, birth, Log(run, n), run[n])
  {
    LeaseIsTheLog(c, birth, run, n);
  }

  /** Nobody attaches while another client is attached. */
  lemma {:induction false} OneAttachment(run: seq<Tick>, n: nat)
    requires n <= |run|
    ensures forall i | 0 <= i < |Log(run, n)| :: Log(run, n)[i].Attached? <==> i % 2 == 0
    decreases n
  {
    if n > 0 {
      OneAttachment(run, n - 1);
      var log := Log(run, n - 1);
      assert EndsAttached(log) <==> |log| % 2 == 1;
    }
  }

  /** No iteration lowers the total. */
  lemma {:induction false} TotalNeverFalls(c: Config, birth: nat, run: seq<Tick>, i: nat, j: nat)
    requires i <= j <= |run|
    ensures LeaseAfter(c, birth, run, i).detachedTotal <= LeaseAfter(c, birth, run, j).detachedTotal
    decreases j
  {
    if i < j {
      TotalNeverFalls(c, birth, run, i, j - 1);
    }
  }

  /** At every head survived without a client, this absence and all of them together are within bounds. */
  lemma SurvivedHeadsAreWithinBounds(c: Config, birth: nat, run: seq<Tick>, k: nat)
    requires k < |run| && AllSurvived(c, birth, run) && !EndsAttached(Log(run, k))
    ensures var left := LeftAt(birth, Log(run, k));
            && Elapsed(run[k].graceAt, left) < c.eofGrace
            && CompletedDetachment(birth, Log(run, k)) + Elapsed(run[k].budgetAt, left) < c.detachBudget
  {
    LeaseIsTheLog(c, birth, run, k);
    assert OutcomeOf(c, birth, run, k).Survived?;
  }

  lemma {:induction false} HeadsArePausesApart(birth: nat, run: seq<Tick>, k: nat)
    requires k < |run| && WellTimed(birth, run)
    ensures birth + PAUSE * k <= run[k].ageAt
    decreases k
  {
    if k > 0 {
      HeadsArePausesApart(birth, run, k - 1);
      assert run[k - 1].ageAt <= run[k - 1].end;
      assert run[k - 1].end + PAUSE <= run[k].ageAt;
    }
  }

  /** The loop survives at most max_age divided by the pause, rounded up. */
  lemma BoundedLifetime(c: Config, birth: nat, run: seq<Tick>)
    requires WellTimed(birth, run) && AllSurvived(c, birth, run)
    ensures |run| <= (c.maxAge + PAUSE - 1) / PAUSE
  {
    if run != [] {
      var k := |run| - 1;
      HeadsArePausesApart(birth, run, k);
      BirthIsKept(c, birth, run, k);
      assert OutcomeOf(c, birth, run, k).Survived?;
      assert PAUSE * k < c.maxAge;
    }
  }

  lemma {:induction false} BirthIsKept(c: Config, birth: nat, run: seq<Tick>, n: nat)
    requires n <= |run|
    ensures LeaseAfter(c, birth, run, n).birth == birth
    decreases n
  {
    if n > 0 {
      BirthIsKept(c, birth, run, n - 1);
    }
  }

  // ---------------------------------------------------------------- what the budget does not see

  /** An absence that begins and ends inside one iteration is added but never checked: the total can pass the budget. */
  lemma UncheckedAbsence()
    ensures var c := Config(1000, 100, 100);
            var first := Tick(false, false, 0, 0, 0, false, 0, Connected, 0, false, 0);
            var second := Tick(false, false, 50, 50, 50, true, 50, Connected, 350, false, 350);
            var third := Tick(false, false, 400, 400, 400, false, 400, NoClient, 400, false, 400);
            var run := [first, second, third];
            && WellTimed(0, run) && AllSurvived(c, 0, run)
            && CompletedDetachment(0, Log(run, 3)) > c.detachBudget
  {
    var c := Config(1000, 100, 100);
    var first := Tick(false, false, 0, 0, 0, false, 0, Connected, 0, false, 0);
    var second := Tick(false, false, 50, 50, 50, true, 50, Connected, 350, false, 350);
    var third := Tick(false, false, 400, 400, 400, false, 400, NoClient, 400, false, 400);
    var run := [first, second, third];
    var l1 := Lease(0, None, 0, true);
    var l2 := Lease(0, None, 300, true);
    assert LeaseAfter(c, 0, run, 0) == NewLease(0);
    assert LeaseAfter(c, 0, run, 1) == l1;
    assert LeaseAfter(c, 0, run, 2) == l2;
    assert LeaseAfter(c, 0, run, 3) == l2;
    assert OutcomeOf(c, 0, run, 0) == OutcomeOf(c, 0, run, 1) == OutcomeOf(c, 0, run, 2) == Survived;
    LeaseIsTheLog(c, 0, run, 3);
  }

  /**
    The budget is a bound on the total after all when the last absence was
    still going on at a head: then only the time from that head's check to the
    end of the attach escapes it.
   */
  lemma BudgetBoundsCheckedAbsence(c: Config, birth: nat, run: seq<Tick>, k: nat)
    requires k < |run| && WellTimed(birth, run) && AllSurvived(c, birth, run)
    requires !EndsAttached(Log(run, k)) && EndsAttached(Log(run, k + 1))
    ensures CompletedDetachment(birth, Log(run, k + 1)) < c.detachBudget + (run[k].attachAt - run[k].budgetAt)
  {
    SurvivedHeadsAreWithinBounds(c, birth, run, k);
    var t, log := run[k], Log(run, k);
    assert Log(run, k + 1) == log + [Attached(t.attachAt)];
    assert Log(run, k + 1)[..|log|] == log;
  }

  // ---------------------------------------------------------------- and exactly when it sees all

  /** The client leaves and another one attaches within this iteration. */
  predicate Blinks(run: seq<Tick>, k: nat)
    requires k < |run|
  {
    EndsAttached(Log(run, k)) && run[k].connectionDone && run[k].incoming.Connected?
  }

  /** The absence that ends with entry m was still going on at some loop head. */
  predicate StoodAtHead(run: seq<Tick>, m: nat)
    requires m < |Log(run, |run|)|
  {
    exists k | 0 <= k < |run| :: Log(run, k) == Log(run, |run|)[..m]
  }

  /** Every absence that was completed was checked at least once. */
  ghost predicate EveryAbsenceChecked(run: seq<Tick>) {
    forall m: nat | m < |Log(run, |run|)| && Log(run, |run|)[m].Attached? :: StoodAtHead(run, m)
  }

  lemma LogStep(run: seq<Tick>, k: nat)
    requires k < |run|
    ensures Log(run, k) <= Log(run, k + 1)
    ensures |Log(run, k + 1)| <= |Log(run, k)| + if Blinks(run, k) then 2 else 1
    ensures Blinks(run, k) ==> |Log(run, k + 1)| == |Log(run, k)| + 2
  {
  }

  predicate Extends(logs: nat -> seq<Entry>, k: nat) {
    logs(k) <= logs(k + 1)
  }

  lemma {:induction false} ChainGrows(logs: nat -> seq<Entry>, i: nat, j: nat)
    requires i <= j && forall k: nat | i <= k < j :: Extends(logs, k)
    ensures logs(i) <= logs(j)
    decreases j
  {
    if i < j {
      ChainGrows(logs, i, j - 1);
      assert Extends(logs, j - 1);
    }
  }

  function Logs(run: seq<Tick>): nat -> seq<Entry> {
    (k: nat) => if k <= |run| then Log(run, k) else []
  }

  lemma LogGrows(run: seq<Tick>, i: nat, j: nat)
    requires i <= j <= |run|
    ensures Log(run, i) <= Log(run, j)
  {
    forall k: nat | i <= k < j
      ensures Extends(Logs(run), k)
    {
      LogStep(run, k);
    }
    ChainGrows(Logs(run), i, j);
    assert Logs(run)(i) == Log(run, i) && Logs(run)(j) == Log(run, j);
  }

  predicate AtMostOneMore(logs: nat -> seq<Entry>, k: nat) {
    |logs(k + 1)| <= |logs(k)| + 1
  }

  /** A log that grows one entry at a time passes through every length short of its last. */
  lemma {:induction false} HeadOfLength(logs: nat -> seq<Entry>, n: nat, m: nat) returns (k: nat)
    requires logs(0) == [] && m < |logs(n)|
    requires forall k: nat | k < n :: AtMostOneMore(logs, k)
    ensures k < n && |logs(k)| == m
    decreases n
  {
    assert AtMostOneMore(logs, n - 1);
    if m < |logs(n - 1)| {
      k := HeadOfLength(logs, n - 1, m);
    } else {
      k := n - 1;
    }
  }

  /** An iteration that adds two entries passes no head between them. */
  lemma NoHeadBetween(run: seq<Tick>, k: nat, l: nat)
    requires k < |run| && l <= |run| && Blinks(run, k)
    ensures |Log(run, l)| != |Log(run, k)| + 1
  {
    LogStep(run, k);
    if l <= k {
      LogGrows(run, l, k);
    } else {
      LogGrows(run, k + 1, l);
    }
  }

  lemma BlinkEndsAttached(run: seq<Tick>, k: nat)
    requires k < |run| && Blinks(run, k)
    ensures var m := |Log(run, k)| + 1;
            m < |Log(run, |run|)| && Log(run, |run|)[m].Attached?
  {
    TickAddsTwo(Log(run, k), run[k]);
    LogGrows(run, k + 1, |run|);
    PrefixEntry(Log(run, k + 1), Log(run, |run|), |Log(run, k)| + 1);
  }

  lemma TickAddsTwo(log: seq<Entry>, t: Tick)
    requires EndsAttached(log) && t.connectionDone && t.incoming.Connected?
    ensures TickLog(log, t) == log + [Detached(t.detachAt)] + [Attached(t.attachAt)]
  {
  }

  lemma PrefixEntry(log: seq<Entry>, longer: seq<Entry>, m: nat)
    requires log <= longer && m < |log|
    ensures longer[m] == log[m]
  {
  }

  /** So the absence between those two entries is one no head has seen. */
  lemma BlinkIsUnseen(run: seq<Tick>, k: nat)
    requires k < |run| && Blinks(run, k)
    ensures !EveryAbsenceChecked(run)
  {
    BlinkEndsAttached(run, k);
    var m := |Log(run, k)| + 1;
    forall l | 0 <= l < |run|
      ensures Log(run, l) != Log(run, |run|)[..m]
    {
      NoHeadBetween(run, k, l);
    }
    assert !StoodAtHead(run, m);
  }

  /**
    The owner checks every absence against its bounds at least once exactly when
    no iteration sees one client leave and another one attach.
   */
  lemma AbsencesCheckedIff(run: seq<Tick>)
    ensures EveryAbsenceChecked(run) <==> forall k | 0 <= k < |run| :: !Blinks(run, k)
  {
    if k :| 0 <= k < |run| && Blinks(run, k) {
      BlinkIsUnseen(run, k);
    } else {
      forall k: nat | k < |run|
        ensures AtMostOneMore(Logs(run), k)
      {
        LogStep(run, k);
      }
      forall m: nat | m < |Log(run, |run|)|
        ensures StoodAtHead(run, m)
      {
        var k := HeadOfLength(Logs(run), |run|, m);
        LogGrows(run, k, |run|);
      }
    }
  }

  /** In such a run the budget bounds the whole total, but for the time from a head's check to the end of an attach. */
  lemma {:induction false} BudgetBoundsTheRun(c: Config, birth: nat, run: seq<Tick>, n: nat, slack: nat)
    requires n <= |run| && WellTimed(birth, run) && AllSurvived(c, birth, run)
    requires forall k | 0 <= k < |run| :: !Blinks(run, k) && run[k].attachAt - run[k].budgetAt <= slack
    ensures CompletedDetachment(birth, Log(run, n)) <= c.detachBudget + slack
    decreases n
  {
    if n > 0 {
      BudgetBoundsTheRun(c, birth, run, n - 1, slack);
      assert !Blinks(run, n - 1);
      if !EndsAttached(Log(run, n - 1)) && EndsAttached(Log(run, n)) {
        BudgetBoundsCheckedAbsence(c, birth, run, n - 1);
      } else {
        OneEntryMore(birth, run, n - 1);
      }
    }
  }

  /** An iteration that completes no absence leaves the sum as it was. */
  lemma OneEntryMore(birth: nat, run: seq<Tick>, k: nat)
    requires k < |run| && !Blinks(run, k)
    requires EndsAttached(Log(run, k)) || !EndsAttached(Log(run, k + 1))
    ensures CompletedDetachment(birth, Log(run, k + 1)) == CompletedDetachment(birth, Log(run, k))
  {
    var log, t := Log(run, k), run[k];
    assert (log + [Detached(t.detachAt)])[..|log|] == log;
  }
}

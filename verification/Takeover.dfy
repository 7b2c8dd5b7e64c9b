/**
  Taking a thread over from the shared server before the isolated one resumes
  it: read both, archive on one, unarchive on the other, roll back on failure.
 */
module Takeover {
  import opened Common

  datatype Server = Isolated | Shared

  datatype Method = Read | Archive | Unarchive

  /** `thread_status`: anything but the three known statuses proves nothing. */
  datatype Status = Idle | Active | NotLoaded | Unproven

  /** A lost exchange may or may not have reached the server. */
  datatype Reply = Answer(status: Status) | Remote(code: int, activeWriter: bool) | Lost(applied: bool)

  datatype Exchange = Exchange(server: Server, name: Method, reply: Reply)

  datatype Outcome =
    | AlreadyOwned | TakenOver | RefusedActive | RefusedUnprovenStatus
    | NoSharedOwner | Failed | FailedRolledBack | FailedRollback

  predicate IsActiveWriter(r: Reply) {
    r.Remote? && r.code == -32600 && r.activeWriter
  }

  // ---------------------------------------------------------------- who has the thread

  function Effect(owners: set<Server>, server: Server, name: Method): set<Server> {
    match name
    case Read => owners
    case Archive => owners - {server}
    case Unarchive => owners + {server}
  }

  predicate TakesEffect(r: Reply) {
    r.Answer? || (r.Lost? && r.applied)
  }

  function OwnersAfter(owners: set<Server>, log: seq<Exchange>): set<Server> {
    if log == [] then owners
    else
      var before, e := OwnersAfter(owners, log[..|log| - 1]), log[|log| - 1];
      if TakesEffect(e.reply) then Effect(before, e.server, e.name) else before
  }

  /** A server says of a thread whether it has it loaded, or proves nothing. */
  predicate Truthful(owners: set<Server>, server: Server, status: Status) {
    match status
    case Idle => server in owners
    case Active => server in owners
    case NotLoaded => server !in owners
    case Unproven => true
  }

  predicate TruthfulLog(owners: set<Server>, log: seq<Exchange>) {
    forall i | 0 <= i < |log| && log[i].name.Read? && log[i].reply.Answer? ::
      Truthful(OwnersAfter(owners, log[..i]), log[i].server, log[i].reply.status)
  }

  /** What becomes of the n-th request, if its reply arrives in time. */
  datatype Fate = Succeeds(status: Status) | Refuses(code: int, activeWriter: bool) | Vanishes(applied: bool)

  /** When an exchange was begun and when it was over. */
  datatype Span = Span(begun: nat, over: nat)

  /** Each connection's deadline is fixed when it is made, for all requests on it. */
  datatype Deadlines = Deadlines(isolated: nat, shared: nat)
  {
    function Of(server: Server): nat {
      if server.Isolated? then isolated else shared
    }
  }

  /** A reply is read only before the deadline of its connection. */
  predicate InTime(begun: nat, delay: nat, deadline: nat) {
    begun < deadline && begun + delay <= deadline
  }

  class World {
    const fate: nat -> Fate
    const delay: nat -> nat
    const connects: Server -> bool
    const connectDelay: Server -> nat
    var clock: nat
    var deadlines: Deadlines
    var owners: set<Server>
    var log: seq<Exchange>
    ghost var spans: seq<Span>

    constructor (
      fate: nat -> Fate, delay: nat -> nat, connects: Server -> bool, connectDelay: Server -> nat, owners: set<Server>)
      ensures this.owners == owners && log == [] && spans == []
    {
      this.fate, this.delay, this.connects, this.connectDelay := fate, delay, connects, connectDelay;
      this.owners := owners;
      clock, log, spans := 0, [], [];
      deadlines := Deadlines(0, 0);
    }

    /** A status the fate proposes is reported only when it is true. */
    function StatusOf(server: Server, proposed: Status): Status
      reads this
    {
      if Truthful(owners, server, proposed) then proposed else Unproven
    }

    /** Connecting fixes the deadline and then takes its own time. */
    method Connect(server: Server, timeout: nat) returns (ok: bool)
      modifies this`clock, this`deadlines
      ensures old(clock) <= clock
      ensures deadlines == if server.Isolated? then old(deadlines).(isolated := old(clock) + timeout)
                           else old(deadlines).(shared := old(clock) + timeout)
    {
      deadlines := if server.Isolated? then deadlines.(isolated := clock + timeout)
                   else deadlines.(shared := clock + timeout);
      ok := connects(server);
      clock := clock + connectDelay(server);
    }

    /** A request sent too late may still take effect, but its reply is lost. */
    method Request(server: Server, name: Method) returns (reply: Reply)
      modifies this`clock, this`owners, this`log, this`spans
      ensures log == old(log) + [Exchange(server, name, reply)]
      ensures spans == old(spans) + [Span(old(clock), clock)] && old(clock) <= clock
      ensures owners == if TakesEffect(reply) then Effect(old(owners), server, name) else old(owners)
      ensures name.Read? && reply.Answer? ==> Truthful(old(owners), server, reply.status)
      ensures reply.Answer? <==>
              fate(|old(log)|).Succeeds? && old(clock) < deadlines.Of(server)
              && old(clock) + delay(|old(log)|) <= deadlines.Of(server)
      ensures reply.Lost? ==> fate(|old(log)|).Vanishes? || deadlines.Of(server) <= clock
      ensures !reply.Lost? ==> old(clock) < deadlines.Of(server) && clock <= deadlines.Of(server)
    {
      ghost var begun := clock;
      var treated, deadline := fate(|log|), deadlines.Of(server);
      if InTime(clock, delay(|log|), deadline) {
        match treated {
          case Succeeds(status) => reply := Answer(if name.Read? then StatusOf(server, status) else Unproven);
          case Refuses(code, writer) => reply := Remote(code, writer);
          case Vanishes(applied) => reply := Lost(applied);
        }
        clock := clock + delay(|log|);
      } else {
        reply := Lost(treated.Succeeds? || (treated.Vanishes? && treated.applied));
        clock := Max(clock, deadline);
      }
      if TakesEffect(reply) {
        owners := Effect(owners, server, name);
      }
      log := log + [Exchange(server, name, reply)];
      spans := spans + [Span(begun, clock)];
    }

    method Sleep(ms: nat)
      modifies this`clock
      ensures clock == old(clock) + ms
    {
      clock := clock + ms;
    }

    /** The books agree with each other, and the clock has not gone back. */
    ghost predicate Kept(was: set<Server>)
      reads this
    {
      Books(was, owners, log, spans, deadlines, clock)
    }

    /** A request that keeps the books. */
    method Ask(ghost was: set<Server>, server: Server, name: Method) returns (reply: Reply)
      requires Kept(was)
      modifies this`clock, this`owners, this`log, this`spans
      ensures Kept(was)
      ensures log == old(log) + [Exchange(server, name, reply)]
      ensures spans == old(spans) + [Span(old(clock), clock)] && old(clock) <= clock
      ensures reply.Answer? <==>
              fate(|old(log)|).Succeeds? && InTime(old(clock), delay(|old(log)|), deadlines.Of(server))
      ensures reply.Lost? ==> fate(|old(log)|).Vanishes? || deadlines.Of(server) <= clock
      ensures !reply.Lost? ==> clock <= deadlines.Of(server)
    {
      ghost var owned, logged, spent, begun := owners, log, spans, clock;
      reply := Request(server, name);
      OneExchangeMore(was, owned, logged, spent, deadlines, begun, Exchange(server, name, reply), clock);
    }

    /** The isolated server must not have the thread; anything else decides the outcome. */
    method AskIsolated(ghost was: set<Server>, timeout: nat) returns (decided: Option<Outcome>)
      requires log == [] && spans == [] && owners == was
      modifies this
      ensures Kept(was)
      ensures decided.Some? ==> Transcript(log, decided.value) && |log| <= 1
      ensures decided.None? ==>
                && log == [Exchange(Isolated, Read, Answer(NotLoaded))]
                && deadlines.isolated == old(clock) + timeout
                && old(clock) <= spans[0].begun
    {
      var connected := Connect(Isolated, timeout);
      if !connected {
        return Some(Failed);
      }
      var read := Ask(was, Isolated, Read);
      if !read.Answer? {
        return Some(Failed);
      }
      match read.status {
        case Idle => return Some(AlreadyOwned);
        case Active => return Some(AlreadyOwned);
        case NotLoaded => return None;
        case Unproven => return Some(RefusedUnprovenStatus);
      }
    }

    /** The shared server must have it and be idle. */
    method AskShared(ghost was: set<Server>, timeout: nat) returns (decided: Option<Outcome>)
      requires Kept(was) && log == [Exchange(Isolated, Read, Answer(NotLoaded))]
      modifies this
      ensures Kept(was)
      ensures decided.Some? ==> Transcript(log, decided.value) && |log| <= 2
      ensures decided.None? ==>
                && |spans| == 2 && spans[0] == old(spans)[0]
                && log == old(log) + [Exchange(Shared, Read, Answer(Idle))]
                && deadlines.isolated == old(deadlines).isolated
                && spans[0].over <= spans[1].begun
                && spans[0].over + timeout <= deadlines.shared <= spans[1].begun + timeout
    {
      var connected := Connect(Shared, timeout);
      if !connected {
        return Some(Failed);
      }
      var read := Ask(was, Shared, Read);
      if !read.Answer? {
        return Some(RefusedUnprovenStatus);
      }
      match read.status {
        case Idle => return None;
        case Active => return Some(RefusedActive);
        case NotLoaded => return Some(NoSharedOwner);
        case Unproven => return Some(RefusedUnprovenStatus);
      }
    }

    /**
      The whole exchange. The shared archive is sent once at most, and only when
      the thread was proven free to move; rollback is sent exactly when the
      archive went through and the isolated unarchive finally failed. A rollback
      is confirmed exactly when it succeeds before the deadline that was fixed
      when the shared server was connected.
     */
    method PrepareResume(timeout: nat) returns (outcome: Outcome)
      requires log == [] && spans == []
      modifies this
      ensures Transcript(log, outcome)
      ensures Kept(old(owners))
      ensures ArchivedOnlyWhenProven(log)
      ensures RolledBack(log) <==> UnarchiveFailed(log)
      ensures RolledBack(log) <==> outcome in {FailedRolledBack, FailedRollback}
      ensures |log| > 3 ==> Connected(spans, deadlines, old(clock), timeout) && Paced(spans, |log|, outcome, timeout)
      ensures RolledBack(log) ==>
                var n := |log| - 1;
                && spans[n].begun == spans[n - 1].over
                && (outcome == FailedRolledBack <==>
                    fate(n).Succeeds? && spans[n].begun < deadlines.shared
                    && spans[n].begun + delay(n) <= deadlines.shared)
                && (log[n - 1].reply.Lost? ==> fate(n - 1).Vanishes? || deadlines.isolated <= spans[n].begun)
                && (log[n - 1].reply == Remote(-32600, true) ==>
                      spans[2].over + timeout <= spans[n].begun <= deadlines.isolated)
      ensures |log| > 3 ==> |log| - 3 <= timeout / 50 + 3
      ensures |log| > 3 ==> |spans| == |log| && RetriedInTime(log, spans, timeout)
    {
      ghost var was := owners;
      var decided := AskIsolated(was, timeout);
      if decided.None? {
        decided := AskShared(was, timeout);
      }
      if decided.Some? {
        TranscriptFacts(log, decided.value);
        return decided.value;
      }
      var archive := Ask(was, Shared, Archive);
      if !archive.Answer? {
        TranscriptFacts(log, Failed);
        return Failed;
      }
      outcome := Move(was, timeout);
      TranscriptFacts(log, outcome);
      LastIsNoRefusalInTime(log, spans, outcome, timeout);
    }

    method Move(ghost was: set<Server>, timeout: nat) returns (outcome: Outcome)
      requires Archived(log) && Kept(was) && spans[2].over == clock
      modifies this`clock, this`owners, this`log, this`spans
      ensures Transcript(log, outcome) && Kept(was) && |log| > 3
      ensures spans[..3] == old(spans) && deadlines == old(deadlines)
      ensures Paced(spans, |log|, outcome, timeout)
      ensures outcome != TakenOver ==>
                var n := |log| - 1;
                && outcome in {FailedRolledBack, FailedRollback} && spans[n].begun == spans[n - 1].over
                && (outcome == FailedRolledBack <==>
                    fate(n).Succeeds? && InTime(spans[n].begun, delay(n), deadlines.shared))
                && (log[n - 1].reply.Lost? ==> fate(n - 1).Vanishes? || deadlines.isolated <= spans[n].begun)
                && (IsActiveWriter(log[n - 1].reply) ==>
                      spans[2].over + timeout <= spans[n].begun <= deadlines.isolated)
      ensures |log| - 3 <= timeout / RETRY_PAUSE + 3
    {
      var taken := RetryUnarchive(was, timeout);
      if taken {
        return TakenOver;
      }
      ghost var paced := spans;
      var rollback := Ask(was, Shared, Unarchive);
      OnePaceMore(paced, |paced|, timeout, spans);
      return if rollback.Answer? then FailedRolledBack else FailedRollback;
    }

    /** One attempt, in pace. */
    method Attempt(ghost was: set<Server>, timeout: nat) returns (reply: Reply)
      requires Kept(was) && Refused(log, spans, timeout) && NextPaced(spans, clock, timeout)
      modifies this`clock, this`owners, this`log, this`spans
      ensures Kept(was) && deadlines == old(deadlines)
      ensures log == old(log) + [Exchange(Isolated, Unarchive, reply)]
      ensures |spans| == |log| && spans[..3] == old(spans[..3]) && spans[|spans| - 1].over == clock
      ensures Archived(log[..3]) && Retried(log, |log| - 1) && RetriesPaced(spans, |log|, timeout)
      ensures IsActiveWriter(reply) ==> Refused(log, spans, timeout)
      ensures reply.Lost? ==> fate(|log| - 1).Vanishes? || deadlines.isolated <= clock
      ensures |log| - 3 <= timeout / RETRY_PAUSE + 2
    {
      ghost var before, spent, begun := log, spans, clock;
      reply := Ask(was, Isolated, Unarchive);
      RefusedMore(before, spent, timeout, Exchange(Isolated, Unarchive, reply), Span(begun, clock));
      RetriesAreFew(spans, timeout);
    }

    /** The pause behind a refusal that came in time. */
    method Pause(ghost was: set<Server>, timeout: nat)
      requires Kept(was) && |spans| > 3 && spans[|spans| - 1].over == clock < spans[2].over + timeout
      modifies this`clock
      ensures Kept(was) && NextPaced(spans, clock, timeout)
    {
      Sleep(RETRY_PAUSE);
    }

    method RetryUnarchive(ghost was: set<Server>, timeout: nat) returns (taken: bool)
      requires Archived(log) && Kept(was) && spans[2].over == clock
      modifies this`clock, this`owners, this`log, this`spans
      ensures |log| > 3 && Archived(log[..3]) && Retried(log, |log| - 1)
      ensures log[|log| - 1].server == Isolated && log[|log| - 1].name == Unarchive
      ensures taken <==> log[|log| - 1].reply.Answer?
      ensures Kept(was) && spans[..3] == old(spans) && deadlines == old(deadlines)
      ensures RetriesPaced(spans, |log|, timeout) && spans[|log| - 1].over == clock
      ensures log[|log| - 1].reply.Lost? ==> fate(|log| - 1).Vanishes? || deadlines.isolated <= clock
      ensures !taken && IsActiveWriter(log[|log| - 1].reply) ==> spans[2].over + timeout <= clock
      ensures |log| - 3 <= timeout / RETRY_PAUSE + 2
    {
      var deadline := clock + timeout;
      while true
        invariant Kept(was) && spans[..3] == old(spans)
        invariant Refused(log, spans, timeout) && deadline == spans[2].over + timeout
        invariant NextPaced(spans, clock, timeout)
        decreases timeout - RETRY_PAUSE * (|log| - 4)
      {
        var reply := Attempt(was, timeout);
        if reply.Answer? {
          return true;
        }
        if !IsActiveWriter(reply) || clock >= deadline {
          return false;
        }
        Pause(was, timeout);
      }
    }
  }

  /** Archived, and since then refused by an active writer again and again, at the right pace. */
  predicate Refused(log: seq<Exchange>, spans: seq<Span>, timeout: nat) {
    && 3 <= |log| == |spans| && Archived(log[..3]) && Retried(log, |log|) && RetriesPaced(spans, |log|, timeout)
    && forall i | 3 <= i < |spans| :: spans[i].begun <= spans[i].over
  }

  /** An attempt begun now is in pace: the first at once, a later one a pause after a refusal that came in time. */
  predicate NextPaced(spans: seq<Span>, now: nat, timeout: nat)
    requires |spans| >= 3
  {
    if |spans| == 3 then now == spans[2].over
    else spans[|spans| - 1].over < spans[2].over + timeout && now == spans[|spans| - 1].over + RETRY_PAUSE
  }

  lemma RefusedMore(log: seq<Exchange>, spans: seq<Span>, timeout: nat, e: Exchange, span: Span)
    requires Refused(log, spans, timeout) && NextPaced(spans, span.begun, timeout) && span.begun <= span.over
    requires Is(e, Isolated, Unarchive)
    ensures Archived((log + [e])[..3]) && Retried(log + [e], |log|)
    ensures RetriesPaced(spans + [span], |log| + 1, timeout)
    ensures forall i | 3 <= i < |log| + 1 :: (spans + [span])[i].begun <= (spans + [span])[i].over
    ensures IsActiveWriter(e.reply) ==> Refused(log + [e], spans + [span], timeout)
  {
    assert (log + [e])[..3] == log[..3];
    OnePaceMore(spans, |spans|, timeout, spans + [span]);
  }

  /** Paced retries are a pause apart within the timeout, and so they are few. */
  lemma {:induction false} RetriesAreApart(spans: seq<Span>, n: nat, timeout: nat)
    requires 3 <= n < |spans| && RetriesPaced(spans, n + 1, timeout)
    requires forall i | 3 <= i < |spans| :: spans[i].begun <= spans[i].over
    requires spans[2].over <= spans[3].begun
    ensures spans[2].over + RETRY_PAUSE * (n - 3) <= spans[n].begun
    decreases n
  {
    if n > 3 {
      assert PacedAt(spans, n, timeout);
      RetriesAreApart(spans, n - 1, timeout);
    }
  }

  lemma RetriesAreFew(spans: seq<Span>, timeout: nat)
    requires 3 < |spans| && RetriesPaced(spans, |spans|, timeout)
    requires forall i | 3 <= i < |spans| :: spans[i].begun <= spans[i].over
    requires spans[2].over <= spans[3].begun
    ensures |spans| > 4 ==> RETRY_PAUSE * (|spans| - 5) < timeout
    ensures |spans| - 3 <= timeout / RETRY_PAUSE + 2
  {
    var n := |spans| - 1;
    if n > 3 {
      assert PacedAt(spans, n, timeout);
      RetriesAreApart(spans, n - 1, timeout);
    }
  }

  ghost predicate Books(
    was: set<Server>, owners: set<Server>, log: seq<Exchange>, spans: seq<Span>, d: Deadlines, clock: nat)
  {
    && owners == OwnersAfter(was, log) && TruthfulLog(was, log)
    && Timed(log, spans, d)
    && (spans != [] ==> spans[|spans| - 1].over <= clock)
  }

  lemma OneExchangeMore(
    was: set<Server>, owners: set<Server>, log: seq<Exchange>, spans: seq<Span>, d: Deadlines, begun: nat,
    e: Exchange, over: nat)
    requires Books(was, owners, log, spans, d, begun) && begun <= over
    requires e.name.Read? && e.reply.Answer? ==> Truthful(owners, e.server, e.reply.status)
    requires !e.reply.Lost? ==> begun < d.Of(e.server) && over <= d.Of(e.server)
    ensures Books(was, if TakesEffect(e.reply) then Effect(owners, e.server, e.name) else owners,
                  log + [e], spans + [Span(begun, over)], d, over)
  {
    assert (log + [e])[..|log|] == log;
    ReadSoFar(was, log + [e]);
    OneSpanMore(log, spans, d, begun, e, over);
  }

  lemma OneSpanMore(log: seq<Exchange>, spans: seq<Span>, d: Deadlines, begun: nat, e: Exchange, over: nat)
    requires Timed(log, spans, d) && begun <= over && (spans != [] ==> spans[|spans| - 1].over <= begun)
    requires !e.reply.Lost? ==> begun < d.Of(e.server) && over <= d.Of(e.server)
    ensures Timed(log + [e], spans + [Span(begun, over)], d)
  {
  }

  /** One span for each exchange, one after the other, and every reply read before its connection's deadline. */
  ghost predicate Timed(log: seq<Exchange>, spans: seq<Span>, d: Deadlines) {
    && |spans| == |log|
    && (forall i | 0 <= i < |log| :: spans[i].begun <= spans[i].over)
    && (forall i | 0 < i < |log| :: spans[i - 1].over <= spans[i].begun)
    && (forall i | 0 <= i < |log| && !log[i].reply.Lost? ::
          spans[i].begun < d.Of(log[i].server) && spans[i].over <= d.Of(log[i].server))
  }

  /** The isolated server is connected first, the shared one when the isolated one has answered. */
  predicate Connected(spans: seq<Span>, d: Deadlines, start: nat, timeout: nat) {
    && |spans| > 1
    && d.isolated == start + timeout && start <= spans[0].begun
    && spans[0].over + timeout <= d.shared <= spans[1].begun + timeout
  }

  /** Each retry before n follows a refusal by one pause, and that refusal came within the timeout of the archive. */
  predicate RetriesPaced(spans: seq<Span>, n: nat, timeout: nat) {
    n <= |spans| && forall i: nat | 3 < i < n :: PacedAt(spans, i, timeout)
  }

  predicate PacedAt(spans: seq<Span>, i: nat, timeout: nat)
    requires 3 < i < |spans|
  {
    spans[i - 1].over < spans[2].over + timeout && spans[i].begun == spans[i - 1].over + 50
  }

  lemma OnePaceMore(spans: seq<Span>, n: nat, timeout: nat, longer: seq<Span>)
    requires RetriesPaced(spans, n, timeout) && spans <= longer
    ensures RetriesPaced(longer, n, timeout)
    ensures n < |longer| && (3 < n ==> PacedAt(longer, n, timeout)) ==> RetriesPaced(longer, n + 1, timeout)
  {
    forall i: nat | 3 < i < n
      ensures PacedAt(longer, i, timeout)
    {
      assert PacedAt(spans, i, timeout);
    }
  }

  predicate Paced(spans: seq<Span>, n: nat, outcome: Outcome, timeout: nat) {
    n > 3 && RetriesPaced(spans, if outcome.TakenOver? then n else n - 1, timeout)
  }

  const RETRY_PAUSE: nat := 50

  lemma ReadSoFar(owners: set<Server>, log: seq<Exchange>)
    requires log != []
    ensures var before, e := log[..|log| - 1], log[|log| - 1];
            TruthfulLog(owners, log) <==>
            TruthfulLog(owners, before)
            && (e.name.Read? && e.reply.Answer? ==> Truthful(OwnersAfter(owners, before), e.server, e.reply.status))
  {
    var before := log[..|log| - 1];
    forall i | 0 <= i < |before|
      ensures before[..i] == log[..i] && before[i] == log[i]
    {
    }
  }

  // ---------------------------------------------------------------- what a transcript can be

  predicate Archived(log: seq<Exchange>) {
    && |log| == 3
    && log[0] == Exchange(Isolated, Read, Answer(NotLoaded))
    && log[1] == Exchange(Shared, Read, Answer(Idle))
    && log[2].server == Shared && log[2].name == Archive && log[2].reply.Answer?
  }

  /** Between the archive and position n only isolated unarchives refused by an active writer. */
  predicate Retried(log: seq<Exchange>, n: nat) {
    n <= |log| && forall i | 3 <= i < n ::
      log[i].server == Isolated && log[i].name == Unarchive && log[i].reply == Remote(-32600, true)
  }

  predicate Transcript(log: seq<Exchange>, outcome: Outcome) {
    match |log|
    case 0 => outcome == Failed
    case 1 =>
      && log[0].server == Isolated && log[0].name == Read
      && outcome == (match log[0].reply
                     case Answer(Idle) => AlreadyOwned
                     case Answer(Active) => AlreadyOwned
                     case Answer(Unproven) => RefusedUnprovenStatus
                     case _ => Failed)
    case 2 =>
      && log[0] == Exchange(Isolated, Read, Answer(NotLoaded)) && log[1].server == Shared && log[1].name == Read
      && log[1].reply != Answer(Idle)
      && outcome == (match log[1].reply
                     case Answer(Active) => RefusedActive
                     case Answer(NotLoaded) => NoSharedOwner
                     case _ => RefusedUnprovenStatus)
    case 3 =>
      && log[0] == Exchange(Isolated, Read, Answer(NotLoaded)) && log[1] == Exchange(Shared, Read, Answer(Idle))
      && log[2].server == Shared && log[2].name == Archive && !log[2].reply.Answer?
      && outcome == Failed
    case n =>
      && Archived(log[..3])
      && var last := log[n - 1];
         if last.server == Isolated then
           Retried(log, n - 1) && last.name == Unarchive && last.reply.Answer? && outcome == TakenOver
         else
           && n > 4 && Retried(log, n - 2)
           && log[n - 2].server == Isolated && log[n - 2].name == Unarchive && !log[n - 2].reply.Answer?
           && last.name == Unarchive
           && outcome == if last.reply.Answer? then FailedRolledBack else FailedRollback
  }

  /** A refusal by an active writer within the timeout of the archive is followed by another attempt. */
  predicate RetriedInTime(log: seq<Exchange>, spans: seq<Span>, timeout: nat)
    requires 3 < |log| == |spans|
  {
    forall i | 3 <= i < |log| && Is(log[i], Isolated, Unarchive) && log[i].reply == Remote(-32600, true)
               && spans[i].over < spans[2].over + timeout ::
      i + 1 < |log| && Is(log[i + 1], Isolated, Unarchive)
  }

  lemma LastIsNoRefusalInTime(log: seq<Exchange>, spans: seq<Span>, outcome: Outcome, timeout: nat)
    requires 3 < |log| == |spans| && Transcript(log, outcome)
    requires outcome != TakenOver ==>
               var n := |log| - 1;
               && spans[n].begun == spans[n - 1].over
               && (log[n - 1].reply == Remote(-32600, true) ==> spans[2].over + timeout <= spans[n].begun)
    ensures RetriedInTime(log, spans, timeout)
  {
    assert forall i | 0 <= i < 3 :: log[i] == log[..3][i];
  }

  predicate Is(e: Exchange, server: Server, name: Method) {
    e.server == server && e.name == name
  }

  /** The shared archive is the third exchange or none, behind two answers that proved the thread free to move. */
  predicate ArchivedOnlyWhenProven(log: seq<Exchange>) {
    forall i | 0 <= i < |log| && Is(log[i], Shared, Archive) ::
      && i == 2
      && log[0] == Exchange(Isolated, Read, Answer(NotLoaded)) && log[1] == Exchange(Shared, Read, Answer(Idle))
  }

  /** The isolated unarchive was tried and its last attempt failed. */
  predicate UnarchiveFailed(log: seq<Exchange>) {
    exists i | 0 <= i < |log| ::
      Is(log[i], Isolated, Unarchive) && !log[i].reply.Answer?
      && forall k | i < k < |log| :: !Is(log[k], Isolated, Unarchive)
  }

  predicate RolledBack(log: seq<Exchange>) {
    exists i | 0 <= i < |log| :: Is(log[i], Shared, Unarchive)
  }

  lemma TranscriptFacts(log: seq<Exchange>, outcome: Outcome)
    requires Transcript(log, outcome)
    ensures ArchivedOnlyWhenProven(log)
    ensures RolledBack(log) <==> UnarchiveFailed(log)
    ensures RolledBack(log) <==> outcome in {FailedRolledBack, FailedRollback}
    ensures RolledBack(log) ==> |log| > 4
  {
    var n := |log|;
    if n > 3 {
      assert forall i | 0 <= i < 3 :: log[i] == log[..3][i];
      if log[n - 1].server == Shared {
        assert Is(log[n - 1], Shared, Unarchive);
        assert Is(log[n - 2], Isolated, Unarchive);
        assert UnarchiveFailed(log);
      } else {
        assert Is(log[n - 1], Isolated, Unarchive);
      }
    }
  }

  /**
    When a rollback can still be confirmed. Its deadline was fixed when the shared
    server was connected. If the last unarchive ran into its own deadline instead
    of being refused or lost on the way, no more is left than passed between the
    two connections; and a writer that stays active leads there, for the retry
    loop's later deadline is reached only if no time at all passed up to the archive.
   */
  lemma RollbackWindow(
    log: seq<Exchange>, spans: seq<Span>, d: Deadlines, start: nat, timeout: nat, n: nat)
    requires Timed(log, spans, d) && Connected(spans, d, start, timeout)
    requires 4 <= n == |log| - 1 && Is(log[n], Shared, Unarchive) && spans[n].begun == spans[n - 1].over
    ensures log[n].reply.Answer? && d.isolated <= spans[n - 1].over ==>
              spans[n].over - spans[n - 1].over <= spans[1].begun - start
    ensures spans[2].over + timeout <= spans[n].begun <= d.isolated ==>
              spans[2].over == start && spans[n].begun == d.isolated
  {
    assert spans[0].over <= spans[1].begun;
    assert spans[1].begun <= spans[1].over <= spans[2].begun <= spans[2].over;
    assert spans[0].begun <= spans[0].over;
  }

  predicate NothingLost(log: seq<Exchange>) {
    forall i | 0 <= i < |log| :: !log[i].reply.Lost?
  }

  /** Refused retries change nothing. */
  lemma {:induction false} RetriesKeepOwners(owners: set<Server>, log: seq<Exchange>, n: nat)
    requires 3 <= n <= |log| && Retried(log, n)
    ensures OwnersAfter(owners, log[..n]) == OwnersAfter(owners, log[..3])
    decreases n
  {
    if n > 3 {
      assert log[..n][..n - 1] == log[..n - 1];
      RetriesKeepOwners(owners, log, n - 1);
    }
  }

  lemma ArchivedOwners(owners: set<Server>, log: seq<Exchange>)
    requires |log| >= 3 && Archived(log[..3]) && TruthfulLog(owners, log)
    ensures OwnersAfter(owners, log[..3]) == owners - {Shared}
    ensures Shared in owners && Isolated !in owners
  {
    var l := log[..3];
    assert l[..2][..1][..0] == [] && l[..2][..1] == l[..1] == log[..1] && l[..2] == log[..2];
    assert OwnersAfter(owners, log[..0]) == owners by { assert log[..0] == []; }
    assert OwnersAfter(owners, log[..1]) == owners by { assert log[..1][..0] == []; }
    assert OwnersAfter(owners, log[..2]) == owners by { assert log[..2][..1] == log[..1]; }
    assert log[0] == l[0] && log[1] == l[1];
  }

  function Expected(owners: set<Server>, outcome: Outcome): set<Server> {
    match outcome
    case TakenOver => owners - {Shared} + {Isolated}
    case FailedRollback => owners - {Shared}
    case _ => owners
  }

  /** The unanswered exchanges that reached their server all the same. */
  predicate SilentlyApplied(log: seq<Exchange>) {
    exists i | 0 <= i < |log| :: log[i].reply == Lost(true) && !log[i].name.Read?
  }

  lemma LastOwners(owners: set<Server>, log: seq<Exchange>)
    requires log != []
    ensures var before, e := OwnersAfter(owners, log[..|log| - 1]), log[|log| - 1];
            OwnersAfter(owners, log) == if TakesEffect(e.reply) then Effect(before, e.server, e.name) else before
  {
  }

  /**
    Ownership. The thread ends where the outcome says exactly when no archive or
    unarchive whose reply was lost took effect: with the isolated server when
    taken over, with the shared one when rolled back, and unchanged otherwise
    except that a failed rollback leaves it with neither.
   */
  lemma {:induction false} OwnershipIffNothingSilent(owners: set<Server>, log: seq<Exchange>, outcome: Outcome)
    requires Transcript(log, outcome) && TruthfulLog(owners, log)
    ensures OwnersAfter(owners, log) == Expected(owners, outcome) <==> !SilentlyApplied(log)
  {
    var n := |log|;
    if n <= 3 {
      ShortOwnership(owners, log, outcome);
    } else {
      ArchivedOwners(owners, log);
      assert forall i | 0 <= i < 3 :: log[i] == log[..3][i];
      LastOwners(owners, log);
      if log[n - 1].server == Isolated {
        RetriesKeepOwners(owners, log, n - 1);
      } else {
        RetriesKeepOwners(owners, log, n - 2);
        assert log[..n - 1][..n - 2] == log[..n - 2];
        LastOwners(owners, log[..n - 1]);
      }
    }
  }

  lemma ShortOwnership(owners: set<Server>, log: seq<Exchange>, outcome: Outcome)
    requires Transcript(log, outcome) && TruthfulLog(owners, log) && |log| <= 3
    ensures OwnersAfter(owners, log) == Expected(owners, outcome) <==> !SilentlyApplied(log)
  {
    if |log| == 3 {
      assert log[..2][..1][..0] == [] && log[..2][..1] == log[..1];
      assert OwnersAfter(owners, log[..1]) == owners;
      assert OwnersAfter(owners, log[..2]) == owners;
      assert Shared in owners by { assert Truthful(OwnersAfter(owners, log[..1]), Shared, Idle); }
      assert SilentlyApplied(log) <==> log[2].reply == Lost(true);
    } else if |log| == 2 {
      assert log[..1][..0] == [];
    }
  }

  /** So a thread with one owner never ends up with two, unless a lost unarchive took effect. */
  lemma NeverTwoOwners(log: seq<Exchange>, outcome: Outcome)
    requires Transcript(log, outcome) && TruthfulLog({Shared}, log) && NothingLost(log)
    ensures OwnersAfter({Shared}, log) == match outcome
            case TakenOver => {Isolated}
            case FailedRollback => {}
            case _ => {Shared}
  {
    OwnershipIffNothingSilent({Shared}, log, outcome);
  }

  /** And when one did, it can: the isolated server has the thread and the rollback gives it to the shared one too. */
  lemma LostUnarchiveDoublesOwner()
    ensures var log := [
              Exchange(Isolated, Read, Answer(NotLoaded)), Exchange(Shared, Read, Answer(Idle)),
              Exchange(Shared, Archive, Answer(Unproven)), Exchange(Isolated, Unarchive, Lost(true)),
              Exchange(Shared, Unarchive, Answer(Unproven))];
            Transcript(log, FailedRolledBack) && TruthfulLog({Shared}, log)
            && OwnersAfter({Shared}, log) == {Isolated, Shared}
  {
    var log := [
      Exchange(Isolated, Read, Answer(NotLoaded)), Exchange(Shared, Read, Answer(Idle)),
      Exchange(Shared, Archive, Answer(Unproven)), Exchange(Isolated, Unarchive, Lost(true)),
      Exchange(Shared, Unarchive, Answer(Unproven))];
    assert log[..0] == [] && log[..1][..0] == [] && log[..2][..1] == log[..1];
    assert log[..3][..2] == log[..2] && log[..4][..3] == log[..3] && log[..5] == log;
    assert OwnersAfter({Shared}, log[..1]) == {Shared};
    assert OwnersAfter({Shared}, log[..2]) == {Shared};
    assert OwnersAfter({Shared}, log[..3]) == {};
    assert OwnersAfter({Shared}, log[..4]) == {Isolated};
  }
}

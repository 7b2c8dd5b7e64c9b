/**
  What the observer reads in a JSON-RPC message, already parsed, and the effect
  of one message on its state. Methods and statuses the code tests for have
  their own constructor; every other string is `Other`.
 */
module Protocol {
  import opened Common

  /** Request ids are compared as tagged text, so a string never equals a number. */
  datatype RequestId = Text(text: string) | Number(digits: string)

  datatype ClientMethod =
    | ThreadStart | ThreadResume | ThreadFork | ThreadArchive | ThreadUnarchive | ThreadDelete
    | ThreadCompact | ThreadRollback | ThreadNameSet | ThreadUnsubscribe
    | TurnStart | TurnInterrupt | TurnSteer | ReviewStart | CommandExec
    | Other(name: string)

  datatype ClientParams = ClientParams(threadId: Option<string>, raw: string)

  datatype ClientMessage = ClientMessage(
    name: Option<ClientMethod>, id: Option<RequestId>, params: Option<ClientParams>)

  datatype ServerMethod =
    | TurnStarted | TurnCompleted | TurnFailed | TurnCancelled
    | ThreadStatusChanged | ThreadClosed
    | OtherNotice(name: string)

  datatype Status = Active | Idle | NotLoaded | OtherStatus

  datatype Turn = Turn(id: Option<string>, inProgress: bool)

  /** The fields under `result` that any reply is read for. */
  datatype Reply = Reply(
    turnId: Option<string>, turnInProgress: bool,
    threadId: Option<string>, threadActive: bool, turns: seq<Turn>,
    unsubscribed: bool)

  datatype ServerMessage = ServerMessage(
    name: Option<ServerMethod>, id: Option<RequestId>, failed: bool, reply: Reply,
    threadId: Option<string>, turnId: Option<string>, status: Option<Status>)

  datatype PendingRequest =
    | OpenThread(fallback: Option<string>)
    | RemoveThread(threadId: string, archive: bool)
    | Unsubscribe
    | StartTurn(thread: Option<string>)
    | Busy

  datatype ResumeAttempt = ResumeAttempt(threadId: string, params: ClientParams)

  type TurnKey = (string, string)

  const MAX_TERMINAL: nat := 4096

  datatype Observation = Observation(
    pending: map<RequestId, PendingRequest>,
    live: set<string>,
    archiveEpoch: nat,
    active: set<TurnKey>,
    terminal: set<TurnKey>,
    busy: set<string>,
    unsubscribed: nat,
    unsubscribeFailed: nat,
    anonymous: nat,
    failures: nat,
    generation: nat,
    resumes: seq<ResumeAttempt>)

  const NOTHING := Observation(map[], {}, 0, {}, {}, {}, 0, 0, 0, 0, 0, [])

  predicate IsUserActivity(m: ClientMethod) {
    !m.ThreadUnsubscribe? && !m.Other?
  }

  function ThreadOf(m: ClientMessage): Option<string> {
    if m.params.Some? then m.params.value.threadId else None
  }

  function RequestOf(m: ClientMessage): Option<PendingRequest> {
    if m.name.None? then None
    else match m.name.value
      case ThreadStart => Some(OpenThread(None))
      case ThreadResume => Some(OpenThread(ThreadOf(m)))
      case ThreadUnarchive => Some(OpenThread(ThreadOf(m)))
      case ThreadArchive => if ThreadOf(m).Some? then Some(RemoveThread(ThreadOf(m).value, true)) else None
      case ThreadDelete => if ThreadOf(m).Some? then Some(RemoveThread(ThreadOf(m).value, false)) else None
      case ThreadUnsubscribe => Some(Unsubscribe)
      case CommandExec => Some(Busy)
      case TurnStart => Some(StartTurn(ThreadOf(m)))
      case ReviewStart => Some(StartTurn(ThreadOf(m)))
      case _ => None
  }

  function ResumeOf(m: ClientMessage): seq<ResumeAttempt> {
    if m.name == Some(ThreadResume) && ThreadOf(m).Some? then
      [ResumeAttempt(ThreadOf(m).value, m.params.value)]
    else []
  }

  /** A request that starts work on the server. */
  predicate StartsWork(m: ClientMessage) {
    m.name in {Some(TurnStart), Some(ReviewStart), Some(CommandExec)}
  }

  predicate Threadless(m: ClientMessage) {
    m.name in {Some(TurnStart), Some(ReviewStart)} && ThreadOf(m).None?
  }

  function OnClient(o: Observation, m: ClientMessage): Observation {
    var unanswerable := if StartsWork(m) && m.id.None? then 1 else 0;
    var threadless := if Threadless(m) then 1 else 0;
    var activity := if m.name.Some? && IsUserActivity(m.name.value) then 1 else 0;
    o.(pending := if m.id.Some? && RequestOf(m).Some? then o.pending[m.id.value := RequestOf(m).value] else o.pending,
       resumes := o.resumes + ResumeOf(m),
       anonymous := o.anonymous + threadless,
       failures := o.failures + unanswerable + threadless,
       generation := o.generation + activity)
  }

  function Decrement(n: nat): nat {
    if n == 0 then 0 else n - 1
  }

  function OpenedThread(fallback: Option<string>, r: Reply): Option<string> {
    if r.threadId.Some? then r.threadId else fallback
  }

  function TurnsInProgress(thread: string, turns: seq<Turn>): set<TurnKey> {
    set t | t in turns && t.inProgress && t.id.Some? :: (thread, t.id.value)
  }

  function Finish(o: Observation, p: PendingRequest, m: ServerMessage): Observation {
    var r := m.reply;
    match p
    case StartTurn(None) =>
      if m.failed then o.(anonymous := Decrement(o.anonymous)) else o
    case StartTurn(Some(thread)) =>
      if m.failed then o
      else if r.turnId.None? then o.(failures := o.failures + 1)
      else if r.turnInProgress && (thread, r.turnId.value) !in o.terminal then
        o.(active := o.active + {(thread, r.turnId.value)})
      else o
    case OpenThread(fallback) =>
      var target := OpenedThread(fallback, r);
      if m.failed || target.None? then o
      else
        o.(live := o.live + {target.value},
           busy := if r.threadActive then o.busy + {target.value} else o.busy,
           active := o.active + (TurnsInProgress(target.value, r.turns) - o.terminal))
    case RemoveThread(thread, archive) =>
      if m.failed then o
      else
        var emptied := archive && thread in o.live && o.live - {thread} == {};
        o.(live := o.live - {thread},
           archiveEpoch := if emptied then o.archiveEpoch + 1 else o.archiveEpoch)
    case Unsubscribe =>
      if !m.failed && r.unsubscribed then o.(unsubscribed := o.unsubscribed + 1)
      else o.(unsubscribeFailed := o.unsubscribeFailed + 1)
    case Busy => o
  }

  predicate IsTurnEnd(n: ServerMethod) {
    n.TurnCompleted? || n.TurnFailed? || n.TurnCancelled?
  }

  function Notify(o: Observation, m: ServerMessage): Observation {
    if m.name.None? then o
    else match m.name.value
      case OtherNotice(_) => o
      case ThreadStatusChanged =>
        if m.threadId.None? then o
        else if m.status == Some(Active) then o.(busy := o.busy + {m.threadId.value})
        else if m.status in {Some(Idle), Some(NotLoaded)} then o.(busy := o.busy - {m.threadId.value})
        else o.(failures := o.failures + 1)
      case ThreadClosed =>
        if m.threadId.None? then o
        else
          o.(live := o.live - {m.threadId.value},
             busy := o.busy - {m.threadId.value},
             active := set key | key in o.active && key.0 != m.threadId.value)
      case TurnStarted =>
        if m.threadId.None? || m.turnId.None? then o.(failures := o.failures + 1)
        else
          var key := (m.threadId.value, m.turnId.value);
          if key in o.terminal then o else o.(active := o.active + {key})
      case _ =>
        if m.threadId.None? || m.turnId.None? then
          o.(failures := o.failures + 1, anonymous := Decrement(o.anonymous))
        else
          var key := (m.threadId.value, m.turnId.value);
          var ended := o.(active := o.active - {key}, busy := o.busy - {key.0});
          if |o.terminal| < MAX_TERMINAL then ended.(terminal := o.terminal + {key})
          else ended.(failures := o.failures + 1)
  }

  /** The reply to a pending request is handled first, then the notification. */
  function Answer(o: Observation, m: ServerMessage): Observation {
    if m.id.Some? && m.id.value in o.pending then
      Finish(o.(pending := o.pending - {m.id.value}), o.pending[m.id.value], m)
    else o
  }

  function OnServer(o: Observation, m: ServerMessage): Observation {
    Notify(Answer(o, m), m)
  }

  predicate Working(p: PendingRequest) {
    p.Busy? || (p.StartTurn? && p.thread.Some?)
  }

  function WorkingIds(o: Observation): set<RequestId> {
    set id | id in o.pending && Working(o.pending[id])
  }

  predicate HasTurn(o: Observation, thread: string) {
    exists key | key in o.active :: key.0 == thread
  }

  function BusyWithoutTurn(o: Observation): set<string> {
    set t | t in o.busy && !HasTurn(o, t)
  }

  /** Turns without a thread, running turns, busy threads without a known turn, and unanswered work. */
  function ActiveCount(o: Observation): nat {
    o.anonymous + |o.active| + |BusyWithoutTurn(o)| + |WorkingIds(o)|
  }

  function IdleThreads(o: Observation): set<string> {
    set t | t in o.live && t !in o.busy && !HasTurn(o, t)
  }

  /** What the drain controller is shown. */
  datatype Snapshot = Snapshot(
    activeTurns: nat, reliable: bool, generation: nat, liveThreads: nat, archiveEpoch: nat,
    unsubscribed: nat, unsubscribeFailed: nat)

  function SnapshotOf(o: Observation): Snapshot {
    Snapshot(ActiveCount(o), o.failures == 0, o.generation, |o.live|, o.archiveEpoch,
             o.unsubscribed, o.unsubscribeFailed)
  }
}

/**
  The observer's state against the whole message history. Each declared notion
  below looks only at the events; the lemmas show that the state kept
  incrementally is exactly what the history declares.
 */
module History {
  import opened Common
  import opened Protocol

  datatype Event =
    | FromClient(client: ClientMessage)
    | FromServer(server: ServerMessage)
    | Unreadable(failures: nat)

  function Step(o: Observation, e: Event): Observation {
    match e
    case FromClient(m) => OnClient(o, m)
    case FromServer(m) => OnServer(o, m)
    case Unreadable(n) => o.(failures := o.failures + n)
  }

  /** The state after the first n events. */
  function At(h: seq<Event>, n: nat): Observation
    requires n <= |h|
  {
    if n == 0 then NOTHING else Step(At(h, n - 1), h[n - 1])
  }

  // ---------------------------------------------------------------- requests and replies

  /** The message names this thread in its parameters. */
  predicate Names(m: ClientMessage, thread: string) {
    m.params.Some? && m.params.value.threadId == Some(thread)
  }

  predicate NamesThread(m: ClientMessage) {
    m.params.Some? && m.params.value.threadId.Some?
  }

  /** The observer will wait for the reply to such a request. */
  predicate IsAwaited(m: ClientMessage) {
    || m.name in {Some(ThreadStart), Some(ThreadResume), Some(ThreadUnarchive), Some(ThreadUnsubscribe),
                  Some(CommandExec), Some(TurnStart), Some(ReviewStart)}
    || (m.name in {Some(ThreadArchive), Some(ThreadDelete)} && NamesThread(m))
  }

  /** What a request asks for, by its method and the thread it names. */
  predicate Wants(m: ClientMessage, p: PendingRequest) {
    match p
    case Busy => m.name == Some(CommandExec)
    case Unsubscribe => m.name == Some(ThreadUnsubscribe)
    case StartTurn(thread) => m.name in {Some(TurnStart), Some(ReviewStart)} && IsNamed(m, thread)
    case OpenThread(fallback) =>
      || (m.name == Some(ThreadStart) && fallback.None?)
      || (m.name in {Some(ThreadResume), Some(ThreadUnarchive)} && IsNamed(m, fallback))
    case RemoveThread(thread, archive) =>
      m.name == Some(if archive then ThreadArchive else ThreadDelete) && Names(m, thread)
  }

  predicate IsNamed(m: ClientMessage, thread: Option<string>) {
    if thread.Some? then Names(m, thread.value) else !NamesThread(m)
  }

  /** The id under which an event registers a request. */
  function Registers(e: Event): Option<RequestId> {
    if e.FromClient? && e.client.id.Some? && IsAwaited(e.client) then e.client.id else None
  }

  function AnswersId(e: Event): Option<RequestId> {
    if e.FromServer? then e.server.id else None
  }

  /** Event i registers a request under this id and no event after it, up to n, uses the id again. */
  ghost predicate OpenAt(h: seq<Event>, i: nat, id: RequestId, n: nat) {
    && i < n <= |h|
    && Registers(h[i]) == Some(id)
    && forall l | i < l < n :: Registers(h[l]) != Some(id) && AnswersId(h[l]) != Some(id)
  }

  ghost predicate PendingIs(h: seq<Event>, n: nat, id: RequestId)
    requires n <= |h|
  {
    var p := At(h, n).pending;
    && (id in p ==> exists i: nat :: OpenAt(h, i, id, n) && RequestOf(h[i].client) == Some(p[id]))
    && (forall i: nat | OpenAt(h, i, id, n) ::
          id in p && RequestOf(h[i].client) == Some(p[id]) && Wants(h[i].client, p[id]))
  }

  /** The pending table holds exactly the open requests of the history. */
  lemma {:induction false} PendingIsDeclared(h: seq<Event>, n: nat, id: RequestId)
    requires n <= |h|
    ensures PendingIs(h, n, id)
    decreases n
  {
    if n > 0 {
      var before, e := At(h, n - 1), h[n - 1];
      PendingIsDeclared(h, n - 1, id);
      PendingStep(before, e, id);
      forall i: nat {
        OpenStep(h, i, id, n);
      }
    }
  }

  lemma OpenStep(h: seq<Event>, i: nat, id: RequestId, n: nat)
    requires 0 < n <= |h|
    ensures var e := h[n - 1];
            OpenAt(h, i, id, n) <==>
            if i == n - 1 then Registers(e) == Some(id)
            else OpenAt(h, i, id, n - 1) && Registers(e) != Some(id) && AnswersId(e) != Some(id)
  {
  }

  lemma PendingStep(o: Observation, e: Event, id: RequestId)
    ensures var p, q := o.pending, Step(o, e).pending;
            if Registers(e) == Some(id) then id in q && RequestOf(e.client) == Some(q[id])
            else if AnswersId(e) == Some(id) then id !in q
            else (id in q <==> id in p) && (id in p ==> q[id] == p[id])
  {
    if e.FromServer? {
      AnswerPending(o, e.server);
    }
  }

  lemma AnswerPending(o: Observation, m: ServerMessage)
    ensures OnServer(o, m).pending == if m.id.Some? then o.pending - {m.id.value} else o.pending
  {
    var a := Answer(o, m);
    assert Notify(a, m).pending == a.pending;
  }

  /** Event j is the reply to the request of event i. */
  ghost predicate Replies(h: seq<Event>, i: nat, j: nat) {
    && j < |h|
    && AnswersId(h[j]).Some?
    && OpenAt(h, i, AnswersId(h[j]).value, j)
  }

  /** Event j is the reply to some request, and the two have this effect. */
  ghost predicate ReplyDoes(h: seq<Event>, j: nat, effect: (PendingRequest, ServerMessage) -> bool) {
    exists i: nat :: Replies(h, i, j) && effect(RequestOf(h[i].client).value, h[j].server)
  }

  /** The same as the state sees it. */
  predicate AnswerDoes(o: Observation, e: Event, effect: (PendingRequest, ServerMessage) -> bool) {
    AnswersId(e).Some? && AnswersId(e).value in o.pending && effect(o.pending[AnswersId(e).value], e.server)
  }

  lemma ReplyIsAnswer(h: seq<Event>, j: nat, effect: (PendingRequest, ServerMessage) -> bool)
    requires j < |h|
    ensures ReplyDoes(h, j, effect) <==> AnswerDoes(At(h, j), h[j], effect)
  {
    if AnswersId(h[j]).Some? {
      PendingIsDeclared(h, j, AnswersId(h[j]).value);
      if AnswerDoes(At(h, j), h[j], effect) {
        var id := AnswersId(h[j]).value;
        var i: nat :| OpenAt(h, i, id, j) && RequestOf(h[i].client) == Some(At(h, j).pending[id]);
        assert Replies(h, i, j);
      }
    }
  }

  // ---------------------------------------------------------------- what holds since an event

  /** Some event before n starts it, and from that event on none stops it. */
  ghost predicate Since(n: nat, start: nat -> bool, stop: nat -> bool) {
    exists j: nat :: j < n && start(j) && NoneFrom(j, n, stop)
  }

  predicate NoneFrom(j: nat, n: nat, stop: nat -> bool) {
    forall l: nat | j <= l < n :: !stop(l)
  }

  lemma SinceStep(n: nat, start: nat -> bool, stop: nat -> bool)
    ensures Since(n + 1, start, stop) <==> !stop(n) && (Since(n, start, stop) || start(n))
  {
    if Since(n + 1, start, stop) {
      var j: nat :| j < n + 1 && start(j) && NoneFrom(j, n + 1, stop);
      assert j < n ==> NoneFrom(j, n, stop);
    }
    if !stop(n) && Since(n, start, stop) {
      var j: nat :| j < n && start(j) && NoneFrom(j, n, stop);
      assert NoneFrom(j, n + 1, stop);
    }
    if !stop(n) && start(n) {
      assert NoneFrom(n, n + 1, stop);
    }
  }

  predicate StepKeeps(j: nat, kept: nat -> bool, start: nat -> bool, stop: nat -> bool) {
    kept(j + 1) <==> !stop(j) && (kept(j) || start(j))
  }

  /** What every step starts, keeps and stops like this is what holds since an event. */
  lemma {:induction false} SinceInduction(n: nat, kept: nat -> bool, start: nat -> bool, stop: nat -> bool)
    requires !kept(0)
    requires forall j: nat | j < n :: StepKeeps(j, kept, start, stop)
    ensures kept(n) <==> Since(n, start, stop)
    decreases n
  {
    if n > 0 {
      SinceInduction(n - 1, kept, start, stop);
      SinceStep(n - 1, start, stop);
      assert StepKeeps(n - 1, kept, start, stop);
    }
  }

  /** Two pairs of starts that cover the same events. */
  predicate Covers(j: nat, a: nat -> bool, b: nat -> bool, c: nat -> bool, d: nat -> bool) {
    a(j) || b(j) <==> c(j) || d(j)
  }

  lemma SinceCovers(
    n: nat, a: nat -> bool, b: nat -> bool, c: nat -> bool, d: nat -> bool, stop: nat -> bool)
    requires forall j: nat :: Covers(j, a, b, c, d)
    ensures Since(n, a, stop) || Since(n, b, stop) <==> Since(n, c, stop) || Since(n, d, stop)
  {
    forall j: nat | j < n && NoneFrom(j, n, stop)
      ensures a(j) || b(j) <==> c(j) || d(j)
    {
      assert Covers(j, a, b, c, d);
    }
  }

  // ---------------------------------------------------------------- started, ended and closed turns

  function ReplyStarts(key: TurnKey): (PendingRequest, ServerMessage) -> bool {
    (p: PendingRequest, m: ServerMessage) =>
      match p
      case StartTurn(thread) =>
        !m.failed && m.reply.turnInProgress && m.reply.turnId == Some(key.1) && thread == Some(key.0)
      case OpenThread(fallback) =>
        !m.failed && (if m.reply.threadId.Some? then m.reply.threadId else fallback) == Some(key.0)
        && Turn(Some(key.1), true) in m.reply.turns
      case _ => false
  }

  predicate NoticeStarts(e: Event, key: TurnKey) {
    e.FromServer? && e.server.name == Some(TurnStarted)
    && e.server.threadId == Some(key.0) && e.server.turnId == Some(key.1)
  }

  predicate Ends(e: Event, key: TurnKey) {
    e.FromServer? && e.server.name in {Some(TurnCompleted), Some(TurnFailed), Some(TurnCancelled)}
    && e.server.threadId == Some(key.0) && e.server.turnId == Some(key.1)
  }

  predicate Closes(e: Event, thread: string) {
    e.FromServer? && e.server.name == Some(ThreadClosed) && e.server.threadId == Some(thread)
  }

  /** Event j starts the turn: a notification, or the reply to a request that starts or lists it. */
  ghost predicate Starts(h: seq<Event>, j: nat, key: TurnKey) {
    j < |h| && (NoticeStarts(h[j], key) || ReplyDoes(h, j, ReplyStarts(key)))
  }

  ghost function StartsOf(h: seq<Event>, key: TurnKey): nat -> bool {
    (j: nat) => Starts(h, j, key)
  }

  ghost function ClosesOf(h: seq<Event>, thread: string): nat -> bool {
    (j: nat) => j < |h| && Closes(h[j], thread)
  }

  predicate Ended(h: seq<Event>, n: nat, key: TurnKey) {
    exists j | 0 <= j < n <= |h| :: Ends(h[j], key)
  }

  /** Started after its thread was last closed, and never ended anywhere in the history. */
  ghost predicate DeclaredActive(h: seq<Event>, n: nat, key: TurnKey) {
    Since(n, StartsOf(h, key), ClosesOf(h, key.0)) && !Ended(h, n, key)
  }

  lemma AnswerActive(o: Observation, m: ServerMessage, key: TurnKey)
    ensures key in Answer(o, m).active <==>
            key in o.active || (AnswerDoes(o, FromServer(m), ReplyStarts(key)) && key !in o.terminal)
    ensures Answer(o, m).terminal == o.terminal
  {
    if m.id.Some? && m.id.value in o.pending {
      var q := o.pending[m.id.value];
      if q.OpenThread? && OpenedThread(q.fallback, m.reply).Some? {
        ListedTurns(OpenedThread(q.fallback, m.reply).value, m.reply.turns, key);
      }
    }
  }

  lemma ListedTurns(thread: string, turns: seq<Turn>, key: TurnKey)
    ensures key in TurnsInProgress(thread, turns) <==> key.0 == thread && Turn(Some(key.1), true) in turns
  {
    if key in TurnsInProgress(thread, turns) {
      var t :| t in turns && t.inProgress && t.id.Some? && (thread, t.id.value) == key;
      assert t == Turn(Some(key.1), true);
    }
    if key.0 == thread && Turn(Some(key.1), true) in turns {
      var t := Turn(Some(key.1), true);
      assert t in turns && (thread, t.id.value) == key;
    }
  }

  lemma ActiveStep(o: Observation, e: Event, key: TurnKey)
    requires Step(o, e).failures == 0
    ensures key in Step(o, e).active <==>
            !Closes(e, key.0) && !Ends(e, key)
            && (key in o.active
                || ((NoticeStarts(e, key) || AnswerDoes(o, e, ReplyStarts(key))) && key !in o.terminal))
    ensures key in Step(o, e).terminal <==> key in o.terminal || Ends(e, key)
  {
    if e.FromServer? {
      AnswerActive(o, e.server, key);
      NotifyActive(Answer(o, e.server), e.server, key);
    }
  }

  lemma NotifyActive(o: Observation, m: ServerMessage, key: TurnKey)
    requires Notify(o, m).failures == 0
    ensures var e, p := FromServer(m), Notify(o, m);
            && (key in p.active <==>
                !Closes(e, key.0) && !Ends(e, key)
                && (key in o.active || (NoticeStarts(e, key) && key !in o.terminal)))
            && (key in p.terminal <==> key in o.terminal || Ends(e, key))
  {
    NotifyTerminal(o, m, key);
  }

  lemma NotifyTerminal(o: Observation, m: ServerMessage, key: TurnKey)
    requires Notify(o, m).failures == 0
    ensures key in Notify(o, m).terminal <==> key in o.terminal || Ends(FromServer(m), key)
  {
    if m.name.None? || !IsTurnEnd(m.name.value) {
      assert Notify(o, m).terminal == o.terminal;
    } else {
      assert m.threadId.Some? && m.turnId.Some?;
      assert Notify(o, m).terminal == o.terminal + {(m.threadId.value, m.turnId.value)};
    }
  }

  /** Counters only rise; so a doubt about the stream is never forgotten. */
  predicate Grows(o: Observation, p: Observation) {
    && o.failures <= p.failures
    && o.generation <= p.generation
    && o.archiveEpoch <= p.archiveEpoch
    && o.unsubscribed <= p.unsubscribed
    && o.unsubscribeFailed <= p.unsubscribeFailed
  }

  lemma AnswerGrows(o: Observation, m: ServerMessage)
    ensures Grows(o, Answer(o, m))
  {
  }

  lemma NotifyGrows(o: Observation, m: ServerMessage)
    ensures Grows(o, Notify(o, m))
  {
  }

  lemma StepGrows(o: Observation, e: Event)
    ensures Grows(o, Step(o, e))
  {
    if e.FromServer? {
      AnswerGrows(o, e.server);
      NotifyGrows(Answer(o, e.server), e.server);
    }
  }

  lemma {:induction false} HistoryGrows(h: seq<Event>, i: nat, j: nat)
    requires i <= j <= |h|
    ensures Grows(At(h, i), At(h, j))
    decreases j
  {
    if i < j {
      HistoryGrows(h, i, j - 1);
      StepGrows(At(h, j - 1), h[j - 1]);
    }
  }

  /**
    While no failure has been counted, the active set kept incrementally is the
    declared one, and the tombstones are exactly the turns that ended; so a late
    or duplicate start never brings back a turn that ended.
   */
  lemma {:induction false} ActiveIsDeclared(h: seq<Event>, n: nat, key: TurnKey)
    requires n <= |h| && At(h, n).failures == 0
    ensures key in At(h, n).active <==> DeclaredActive(h, n, key)
    ensures key in At(h, n).terminal <==> Ended(h, n, key)
    decreases n
  {
    if n > 0 {
      HistoryGrows(h, n - 1, n);
      ActiveIsDeclared(h, n - 1, key);
      ActiveStep(At(h, n - 1), h[n - 1], key);
      StartedStep(h, n, key);
      EndedStep(h, n, key);
    }
  }

  lemma StartedStep(h: seq<Event>, n: nat, key: TurnKey)
    requires 0 < n <= |h|
    ensures Since(n, StartsOf(h, key), ClosesOf(h, key.0)) <==>
            !Closes(h[n - 1], key.0)
            && (Since(n - 1, StartsOf(h, key), ClosesOf(h, key.0))
                || NoticeStarts(h[n - 1], key) || AnswerDoes(At(h, n - 1), h[n - 1], ReplyStarts(key)))
  {
    ReplyIsAnswer(h, n - 1, ReplyStarts(key));
    SinceStep(n - 1, StartsOf(h, key), ClosesOf(h, key.0));
  }

  lemma EndedStep(h: seq<Event>, n: nat, key: TurnKey)
    requires 0 < n <= |h|
    ensures Ended(h, n, key) <==> Ended(h, n - 1, key) || Ends(h[n - 1], key)
  {
    if Ended(h, n - 1, key) {
      var j :| 0 <= j < n - 1 && Ends(h[j], key);
      assert Ends(h[j], key);
    }
  }

  /** A turn end met with a full set of tombstones makes the observer unreliable for good. */
  lemma {:induction false} TombstoneCap(h: seq<Event>, i: nat, key: TurnKey, n: nat)
    requires i < n <= |h| && Ends(h[i], key)
    requires |At(h, i).terminal| >= MAX_TERMINAL
    ensures At(h, n).failures > 0
  {
    assert At(h, i + 1).failures > 0 by {
      EndAtCap(h, i, key);
    }
    DoubtStays(h, i + 1, n);
  }

  lemma DoubtStays(h: seq<Event>, i: nat, n: nat)
    requires i <= n <= |h| && At(h, i).failures > 0
    ensures At(h, n).failures > 0
  {
    HistoryGrows(h, i, n);
  }

  lemma EndAtCap(h: seq<Event>, i: nat, key: TurnKey)
    requires i < |h| && Ends(h[i], key) && |At(h, i).terminal| >= MAX_TERMINAL
    ensures At(h, i + 1).failures > 0
  {
    TurnEndStep(At(h, i), h[i], key);
  }

  lemma TurnEndStep(o: Observation, e: Event, key: TurnKey)
    requires Ends(e, key) && |o.terminal| >= MAX_TERMINAL
    ensures Step(o, e).failures > 0
  {
    AnswerActive(o, e.server, key);
  }
}

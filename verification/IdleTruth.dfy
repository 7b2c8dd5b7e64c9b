/**
  What a reliable, inactive snapshot proves about the history, and the
  bookkeeping of loaded threads, archive epochs, unsubscribes and user activity.
 */
module IdleTruth {
  import opened Common
  import opened Protocol
  import opened History
  import opened Responses

  // ---------------------------------------------------------------- busy threads

  function ReplyBusies(thread: string): (PendingRequest, ServerMessage) -> bool {
    (p: PendingRequest, m: ServerMessage) =>
      && p.OpenThread? && !m.failed && m.reply.threadActive
      && (if m.reply.threadId.Some? then m.reply.threadId else p.fallback) == Some(thread)
  }

  predicate NoticeBusies(e: Event, thread: string) {
    e.FromServer? && e.server.name == Some(ThreadStatusChanged)
    && e.server.threadId == Some(thread) && e.server.status == Some(Active)
  }

  predicate Rests(e: Event, thread: string) {
    || Closes(e, thread)
    || (e.FromServer? && e.server.name == Some(ThreadStatusChanged) && e.server.threadId == Some(thread)
        && e.server.status in {Some(Idle), Some(NotLoaded)})
    || (e.FromServer? && e.server.name in {Some(TurnCompleted), Some(TurnFailed), Some(TurnCancelled)}
        && e.server.threadId == Some(thread) && e.server.turnId.Some?)
  }

  ghost function BusiesOf(h: seq<Event>, thread: string): nat -> bool {
    (j: nat) => j < |h| && (NoticeBusies(h[j], thread) || ReplyDoes(h, j, ReplyBusies(thread)))
  }

  ghost function RestsOf(h: seq<Event>, thread: string): nat -> bool {
    (j: nat) => j < |h| && Rests(h[j], thread)
  }

  ghost predicate DeclaredBusy(h: seq<Event>, n: nat, thread: string) {
    Since(n, BusiesOf(h, thread), RestsOf(h, thread))
  }

  lemma AnswerBusy(o: Observation, m: ServerMessage, thread: string)
    ensures thread in Answer(o, m).busy <==> thread in o.busy || AnswerDoes(o, FromServer(m), ReplyBusies(thread))
  {
  }

  lemma BusyStep(o: Observation, e: Event, thread: string)
    ensures thread in Step(o, e).busy <==>
            !Rests(e, thread)
            && (thread in o.busy || NoticeBusies(e, thread) || AnswerDoes(o, e, ReplyBusies(thread)))
  {
    if e.FromServer? {
      AnswerBusy(o, e.server, thread);
    }
  }

  lemma BusyIsDeclared(h: seq<Event>, n: nat, thread: string)
    requires n <= |h|
    ensures thread in At(h, n).busy <==> DeclaredBusy(h, n, thread)
  {
    forall j: nat | j < n {
      BusyNext(h, j, thread);
    }
    SinceInduction(n, BusyAt(h, thread), BusiesOf(h, thread), RestsOf(h, thread));
    assert BusyAt(h, thread)(n) <==> thread in At(h, n).busy;
  }

  function BusyAt(h: seq<Event>, thread: string): nat -> bool {
    (j: nat) => j <= |h| && thread in At(h, j).busy
  }

  lemma BusyNext(h: seq<Event>, j: nat, thread: string)
    requires j < |h|
    ensures StepKeeps(j, BusyAt(h, thread), BusiesOf(h, thread), RestsOf(h, thread))
  {
    BusyStep(At(h, j), h[j], thread);
    ReplyIsAnswer(h, j, ReplyBusies(thread));
  }

  // ---------------------------------------------------------------- loaded threads

  function ReplyOpens(thread: string): (PendingRequest, ServerMessage) -> bool {
    (p: PendingRequest, m: ServerMessage) =>
      p.OpenThread? && !m.failed && (if m.reply.threadId.Some? then m.reply.threadId else p.fallback) == Some(thread)
  }

  function ReplyRemoves(thread: string): (PendingRequest, ServerMessage) -> bool {
    (p: PendingRequest, m: ServerMessage) => p.RemoveThread? && !m.failed && p.threadId == thread
  }

  ghost function OpensOf(h: seq<Event>, thread: string): nat -> bool {
    (j: nat) => j < |h| && ReplyDoes(h, j, ReplyOpens(thread))
  }

  ghost function UnloadsOf(h: seq<Event>, thread: string): nat -> bool {
    (j: nat) => j < |h| && (Closes(h[j], thread) || ReplyDoes(h, j, ReplyRemoves(thread)))
  }

  ghost predicate DeclaredLive(h: seq<Event>, n: nat, thread: string) {
    Since(n, OpensOf(h, thread), UnloadsOf(h, thread))
  }

  lemma AnswerLive(o: Observation, m: ServerMessage, thread: string)
    ensures thread in Answer(o, m).live <==>
            !AnswerDoes(o, FromServer(m), ReplyRemoves(thread))
            && (thread in o.live || AnswerDoes(o, FromServer(m), ReplyOpens(thread)))
  {
  }

  lemma LiveStep(o: Observation, e: Event, thread: string)
    ensures thread in Step(o, e).live <==>
            !Closes(e, thread) && !AnswerDoes(o, e, ReplyRemoves(thread))
            && (thread in o.live || AnswerDoes(o, e, ReplyOpens(thread)))
  {
    if e.FromServer? {
      AnswerLive(o, e.server, thread);
    }
  }

  function LiveAt(h: seq<Event>, thread: string): nat -> bool {
    (j: nat) => j <= |h| && thread in At(h, j).live
  }

  lemma LiveNext(h: seq<Event>, j: nat, thread: string)
    requires j < |h|
    ensures StepKeeps(j, LiveAt(h, thread), OpensOf(h, thread), UnloadsOf(h, thread))
  {
    LiveStep(At(h, j), h[j], thread);
    ReplyIsAnswer(h, j, ReplyOpens(thread));
    ReplyIsAnswer(h, j, ReplyRemoves(thread));
  }

  /** The loaded threads are those opened by a reply and neither removed by one nor closed since. */
  lemma LiveIsDeclared(h: seq<Event>, n: nat, thread: string)
    requires n <= |h|
    ensures thread in At(h, n).live <==> DeclaredLive(h, n, thread)
  {
    forall j: nat | j < n {
      LiveNext(h, j, thread);
    }
    SinceInduction(n, LiveAt(h, thread), OpensOf(h, thread), UnloadsOf(h, thread));
    assert LiveAt(h, thread)(n) <==> thread in At(h, n).live;
  }

  // ---------------------------------------------------------------- idle is the truth

  predicate IsWork(e: Event) {
    e.FromClient? && e.client.name in {Some(TurnStart), Some(ReviewStart), Some(CommandExec)}
  }

  /** The request of event i has had its response before n. */
  ghost predicate Responded(answers: (nat, nat) -> bool, i: nat, n: nat) {
    exists j: nat :: j < n && answers(i, j)
  }

  /** Every turn, review or command asked for has had its response. */
  ghost predicate WorkResponded(h: seq<Event>, answers: (nat, nat) -> bool, n: nat) {
    forall i: nat | i < n <= |h| && IsWork(h[i]) :: Responded(answers, i, n)
  }

  ghost function TrueStarts(h: seq<Event>, answers: (nat, nat) -> bool, key: TurnKey): nat -> bool {
    (j: nat) => j < |h| && (NoticeStarts(h[j], key) || ResponseDoes(h, answers, j, ReplyStarts(key)))
  }

  ghost function MissedStarts(h: seq<Event>, answers: (nat, nat) -> bool, key: TurnKey): nat -> bool {
    (j: nat) => MissedDoes(h, answers, j, ReplyStarts(key))
  }

  ghost function PhantomStarts(h: seq<Event>, answers: (nat, nat) -> bool, key: TurnKey): nat -> bool {
    (j: nat) => PhantomDoes(h, answers, j, ReplyStarts(key))
  }

  ghost function TrueBusies(h: seq<Event>, answers: (nat, nat) -> bool, thread: string): nat -> bool {
    (j: nat) => j < |h| && (NoticeBusies(h[j], thread) || ResponseDoes(h, answers, j, ReplyBusies(thread)))
  }

  ghost function MissedBusies(h: seq<Event>, answers: (nat, nat) -> bool, thread: string): nat -> bool {
    (j: nat) => MissedDoes(h, answers, j, ReplyBusies(thread))
  }

  ghost function PhantomBusies(h: seq<Event>, answers: (nat, nat) -> bool, thread: string): nat -> bool {
    (j: nat) => PhantomDoes(h, answers, j, ReplyBusies(thread))
  }

  /** A turn with such a start after its thread was last closed, and never ended. */
  ghost predicate Runs(h: seq<Event>, n: nat, key: TurnKey, starts: nat -> bool) {
    Since(n, starts, ClosesOf(h, key.0)) && !Ended(h, n, key)
  }

  /** A thread made busy like this and not put to rest since. */
  ghost predicate StaysBusy(h: seq<Event>, n: nat, thread: string, busies: nat -> bool) {
    Since(n, busies, RestsOf(h, thread))
  }

  /**
    All is idle, by notifications and by the responses as they belong to the
    requests: all work has had its response, every turn started has ended or had
    its thread closed, and every busy thread came to rest.
   */
  ghost predicate TrulyIdle(h: seq<Event>, answers: (nat, nat) -> bool, n: nat) {
    && WorkResponded(h, answers, n)
    && (forall key: TurnKey :: !Runs(h, n, key, TrueStarts(h, answers, key)))
    && (forall thread: string :: !StaysBusy(h, n, thread, TrueBusies(h, answers, thread)))
  }

  /** Some work without a response is no longer waited for. */
  ghost predicate HiddenWork(h: seq<Event>, answers: (nat, nat) -> bool, n: nat) {
    exists i: nat :: i < n && Displaced(h, i, n) && IsWork(h[i]) && !Responded(answers, i, n)
  }

  /** Hidden work, or a response no longer waited for that started a turn or made a thread busy, to this day. */
  ghost predicate Overlooked(h: seq<Event>, answers: (nat, nat) -> bool, n: nat) {
    || HiddenWork(h, answers, n)
    || (exists key: TurnKey :: Runs(h, n, key, MissedStarts(h, answers, key)))
    || (exists thread: string :: StaysBusy(h, n, thread, MissedBusies(h, answers, thread)))
  }

  /** A message taken for the response to a request it does not belong to started a turn or made a thread busy. */
  ghost predicate Misattributed(h: seq<Event>, answers: (nat, nat) -> bool, n: nat) {
    || (exists key: TurnKey :: Runs(h, n, key, PhantomStarts(h, answers, key)))
    || (exists thread: string :: StaysBusy(h, n, thread, PhantomBusies(h, answers, thread)))
  }

  predicate Answerable(e: Event) {
    IsWork(e) ==> Registers(e).Some? && Working(RequestOf(e.client).value)
  }

  /** Without failures there is no turn without a thread, and every request for work can be answered. */
  lemma ReliableRequests(h: seq<Event>, n: nat)
    requires n <= |h| && At(h, n).failures == 0
    ensures At(h, n).anonymous == 0
    ensures forall i: nat | i < n :: Answerable(h[i])
  {
    NoAnonymousTurns(h, n);
    forall i: nat | i < n
      ensures Answerable(h[i])
    {
      RequestIsAnswerable(h, i, n);
    }
  }

  lemma {:induction false} RequestIsAnswerable(h: seq<Event>, i: nat, n: nat)
    requires i < n <= |h| && At(h, n).failures == 0
    ensures Answerable(h[i])
    decreases n
  {
    ReliableStep(At(h, n - 1), h[n - 1]);
    if i < n - 1 {
      RequestIsAnswerable(h, i, n - 1);
    } else {
      NoAnonymousTurns(h, i);
    }
  }

  lemma {:induction false} NoAnonymousTurns(h: seq<Event>, n: nat)
    requires n <= |h| && At(h, n).failures == 0
    ensures At(h, n).anonymous == 0
    decreases n
  {
    if n > 0 {
      ReliableStep(At(h, n - 1), h[n - 1]);
      NoAnonymousTurns(h, n - 1);
    }
  }

  lemma {:induction false} ReliableStep(o: Observation, e: Event)
    requires Step(o, e).failures == 0
    ensures o.failures == 0
    ensures o.anonymous == 0 ==> Step(o, e).anonymous == 0 && Answerable(e)
  {
    StepGrows(o, e);
    if o.anonymous == 0 {
      AnonymousStep(o, e);
    }
  }

  lemma AnonymousStep(o: Observation, e: Event)
    requires o.anonymous == 0 && Step(o, e).failures == 0
    ensures Step(o, e).anonymous == 0
    ensures Answerable(e)
  {
    if e.FromServer? {
      assert Answer(o, e.server).anonymous == 0;
    }
  }

  lemma WorkingIsWork(e: Event)
    requires Registers(e).Some?
    ensures Working(RequestOf(e.client).value) ==> IsWork(e)
  {
  }

  /** Work that is still waited for is open, and so has had no response. */
  lemma PendingWorkIsUnanswered(h: seq<Event>, answers: (nat, nat) -> bool, n: nat, id: RequestId) returns (i: nat)
    requires n <= |h| && Matching(h, answers) && id in WorkingIds(At(h, n))
    ensures i < n && IsWork(h[i]) && !Responded(answers, i, n)
  {
    PendingIsDeclared(h, n, id);
    i :| OpenAt(h, i, id, n) && RequestOf(h[i].client) == Some(At(h, n).pending[id]);
    WorkingIsWork(h[i]);
  }

  /** Work that was not displaced is waited for. */
  lemma OpenWorkIsPending(h: seq<Event>, n: nat, i: nat)
    requires i < n <= |h| && IsWork(h[i]) && Answerable(h[i]) && !Displaced(h, i, n)
    ensures Registers(h[i]).value in WorkingIds(At(h, n))
  {
    OpenIfNotDisplaced(h, i, n);
    PendingIsDeclared(h, n, Registers(h[i]).value);
  }

  /** While nothing failed, all work has had its response exactly when none is waited for and none is hidden. */
  lemma WorkIsPending(h: seq<Event>, answers: (nat, nat) -> bool, n: nat)
    requires n <= |h| && Matching(h, answers) && At(h, n).failures == 0
    ensures WorkResponded(h, answers, n) <==> WorkingIds(At(h, n)) == {} && !HiddenWork(h, answers, n)
  {
    ReliableRequests(h, n);
    if id :| id in WorkingIds(At(h, n)) {
      var i := PendingWorkIsUnanswered(h, answers, n, id);
    } else {
      forall i: nat | i < n && IsWork(h[i]) && !Responded(answers, i, n)
        ensures HiddenWork(h, answers, n)
      {
        assert Answerable(h[i]);
        if !Displaced(h, i, n) {
          OpenWorkIsPending(h, n, i);
        }
      }
    }
  }

  lemma ZeroCount(o: Observation)
    ensures ActiveCount(o) == 0 <==>
            o.anonymous == 0 && o.active == {} && o.busy == {} && WorkingIds(o) == {}
  {
    if o.active == {} {
      assert forall t :: !HasTurn(o, t);
      assert BusyWithoutTurn(o) == o.busy;
    }
  }

  /** A reliable count is zero exactly when no turn runs, no thread is busy and no work is waited for. */
  lemma CountIsDeclared(h: seq<Event>, n: nat)
    requires n <= |h| && SnapshotOf(At(h, n)).reliable
    ensures At(h, n).anonymous == 0
    ensures SnapshotOf(At(h, n)).activeTurns == 0 <==>
            && WorkingIds(At(h, n)) == {}
            && (forall key: TurnKey :: !DeclaredActive(h, n, key))
            && (forall thread: string :: !DeclaredBusy(h, n, thread))
  {
    var o := At(h, n);
    ReliableRequests(h, n);
    ZeroCount(o);
    forall key: TurnKey
      ensures key in o.active <==> DeclaredActive(h, n, key)
    {
      ActiveIsDeclared(h, n, key);
    }
    forall thread: string
      ensures thread in o.busy <==> DeclaredBusy(h, n, thread)
    {
      BusyIsDeclared(h, n, thread);
    }
  }

  /** The turns the observer counts and those it misses are together those that run and those it makes up. */
  lemma TurnsBalance(h: seq<Event>, answers: (nat, nat) -> bool, n: nat, key: TurnKey)
    requires n <= |h| && Matching(h, answers)
    ensures DeclaredActive(h, n, key) || Runs(h, n, key, MissedStarts(h, answers, key))
       <==> Runs(h, n, key, TrueStarts(h, answers, key)) || Runs(h, n, key, PhantomStarts(h, answers, key))
  {
    var counted, missed := StartsOf(h, key), MissedStarts(h, answers, key);
    var actual, phantom := TrueStarts(h, answers, key), PhantomStarts(h, answers, key);
    forall j: nat
      ensures Covers(j, counted, missed, actual, phantom)
    {
      EffectsBalance(h, answers, j, ReplyStarts(key));
    }
    SinceCovers(n, counted, missed, actual, phantom, ClosesOf(h, key.0));
  }

  lemma ThreadsBalance(h: seq<Event>, answers: (nat, nat) -> bool, n: nat, thread: string)
    requires n <= |h| && Matching(h, answers)
    ensures DeclaredBusy(h, n, thread) || StaysBusy(h, n, thread, MissedBusies(h, answers, thread))
       <==> || StaysBusy(h, n, thread, TrueBusies(h, answers, thread))
            || StaysBusy(h, n, thread, PhantomBusies(h, answers, thread))
  {
    var counted, missed := BusiesOf(h, thread), MissedBusies(h, answers, thread);
    var actual, phantom := TrueBusies(h, answers, thread), PhantomBusies(h, answers, thread);
    forall j: nat
      ensures Covers(j, counted, missed, actual, phantom)
    {
      EffectsBalance(h, answers, j, ReplyBusies(thread));
    }
    SinceCovers(n, counted, missed, actual, phantom, RestsOf(h, thread));
  }

  /**
    Idle is the truth. However the responses belong to the requests: a reliable
    count is zero with nothing overlooked exactly when all is truly idle with
    nothing made up from a response taken for another one.
   */
  lemma {:induction false} IdleIsTrue(h: seq<Event>, answers: (nat, nat) -> bool, n: nat)
    requires n <= |h| && Matching(h, answers) && SnapshotOf(At(h, n)).reliable
    ensures SnapshotOf(At(h, n)).activeTurns == 0 && !Overlooked(h, answers, n) <==>
            TrulyIdle(h, answers, n) && !Misattributed(h, answers, n)
    ensures SnapshotOf(At(h, n)).activeTurns == 0 ==>
              (TrulyIdle(h, answers, n) <==> !Overlooked(h, answers, n))
  {
    CountIsDeclared(h, n);
    WorkIsPending(h, answers, n);
    forall key: TurnKey {
      TurnsBalance(h, answers, n, key);
    }
    forall thread: string {
      ThreadsBalance(h, answers, n, thread);
    }
  }

  // ---------------------------------------------------------------- when nothing is overlooked

  /** While a request waits for its response no other message carries its id. */
  ghost predicate IdsApart(h: seq<Event>, answers: (nat, nat) -> bool, n: nat) {
    forall i: nat, l: nat | i < l < n <= |h| && Registers(h[i]).Some? && Carries(h[l], Registers(h[i]).value) ::
      Responded(answers, i, l + 1)
  }

  lemma ApartIsHeeded(h: seq<Event>, answers: (nat, nat) -> bool, n: nat, i: nat, j: nat)
    requires n <= |h| && Matching(h, answers) && IdsApart(h, answers, n)
    ensures j < n && answers(i, j) ==> !Displaced(h, i, j)
    ensures j < n && Replies(h, i, j) ==> answers(i, j)
    ensures j <= n && Displaced(h, i, j) ==> Responded(answers, i, j)
  {
  }

  /** Where ids are kept apart until the response, a reliable count is zero exactly when all is truly idle. */
  lemma DistinctIdsHideNothing(h: seq<Event>, answers: (nat, nat) -> bool, n: nat)
    requires n <= |h| && Matching(h, answers) && IdsApart(h, answers, n)
    ensures !Overlooked(h, answers, n) && !Misattributed(h, answers, n)
    ensures SnapshotOf(At(h, n)).reliable ==>
              (SnapshotOf(At(h, n)).activeTurns == 0 <==> TrulyIdle(h, answers, n))
  {
    forall i: nat, j: nat {
      ApartIsHeeded(h, answers, n, i, j);
    }
    if SnapshotOf(At(h, n)).reliable {
      IdleIsTrue(h, answers, n);
    }
  }

  /** A request of the server's carries no result (sections 4 and 5 of the JSON-RPC 2.0 specification). */
  predicate NoResult(e: Event) {
    e.FromServer? && e.server.name.Some? ==>
      !e.server.reply.turnInProgress && !e.server.reply.threadActive && e.server.reply.turns == []
  }

  /** If responses belong to the latest request under their id, nothing is ever made up. */
  lemma LatestMatchingMakesNothingUp(h: seq<Event>, n: nat)
    requires n <= |h| && forall e | e in h :: NoResult(e)
    ensures !Misattributed(h, ResponsesOf(h), n)
  {
    forall i: nat, j: nat | Replies(h, i, j) && !IsResponseTo(h, i, j)
      ensures NoResult(h[j]) && h[j].server.name.Some?
    {
      assert h[j] in h;
    }
    forall key: TurnKey, j: nat
      ensures !PhantomStarts(h, ResponsesOf(h), key)(j)
    {
    }
    forall thread: string, j: nat
      ensures !PhantomBusies(h, ResponsesOf(h), thread)(j)
    {
    }
  }

  // ---------------------------------------------------------------- what can be overlooked

  function PlainResponse(id: string): ServerMessage {
    ServerMessage(None, Some(Number(id)), false, Reply(None, false, None, false, [], false), None, None, None)
  }

  predicate LooksIdle(h: seq<Event>, n: nat)
    requires n <= |h|
  {
    SnapshotOf(At(h, n)).reliable && SnapshotOf(At(h, n)).activeTurns == 0
  }

  lemma EmptyLooksIdle(h: seq<Event>, n: nat)
    requires n <= |h| && At(h, n) == NOTHING.(pending := At(h, n).pending, live := At(h, n).live,
                                              generation := At(h, n).generation, resumes := At(h, n).resumes)
    requires forall id | id in At(h, n).pending :: At(h, n).pending[id].OpenThread?
    ensures LooksIdle(h, n)
  {
    ZeroCount(At(h, n));
    assert WorkingIds(At(h, n)) == {};
  }

  lemma TwoEvents(a: Event, b: Event)
    ensures At([a, b], 2) == Step(Step(NOTHING, a), b)
  {
    assert At([a, b], 1) == Step(At([a, b], 0), a);
  }

  lemma ThreeEvents(a: Event, b: Event, c: Event)
    ensures At([a, b, c], 3) == Step(Step(Step(NOTHING, a), b), c)
  {
    assert At([a, b, c], 1) == Step(At([a, b, c], 0), a);
    assert At([a, b, c], 2) == Step(At([a, b, c], 1), b);
  }

  const TURN_START := ClientMessage(Some(TurnStart), Some(Number("1")), Some(ClientParams(Some("a"), "")))
  const THREAD_START := ClientMessage(Some(ThreadStart), Some(Number("1")), None)
  const THREAD_RESUME := ClientMessage(Some(ThreadResume), Some(Number("1")), Some(ClientParams(Some("a"), "")))
  const COMMAND := ClientMessage(Some(CommandExec), Some(Number("1")), None)
  const SERVER_REQUEST := PlainResponse("1").(name := Some(OtherNotice("a")))

  /** A turn waits for its response, but the client used its id again. */
  lemma ReusedIdHidesWork(answers: (nat, nat) -> bool)
    requires Matching([FromClient(TURN_START), FromClient(THREAD_START)], answers)
    ensures var h := [FromClient(TURN_START), FromClient(THREAD_START)];
            LooksIdle(h, 2) && HiddenWork(h, answers, 2)
  {
    var h := [FromClient(TURN_START), FromClient(THREAD_START)];
    TwoEvents(h[0], h[1]);
    EmptyLooksIdle(h, 2);
    assert Displaced(h, 0, 2) by { assert Carries(h[1], Number("1")); }
    assert !Responded(answers, 0, 2);
  }

  /** A command waits for its response, but the server sent a request of its own under that id. */
  lemma ServerRequestHidesWork(answers: (nat, nat) -> bool)
    requires Matching([FromClient(COMMAND), FromServer(SERVER_REQUEST)], answers)
    ensures var h := [FromClient(COMMAND), FromServer(SERVER_REQUEST)];
            LooksIdle(h, 2) && HiddenWork(h, answers, 2)
  {
    var h := [FromClient(COMMAND), FromServer(SERVER_REQUEST)];
    TwoEvents(h[0], h[1]);
    EmptyLooksIdle(h, 2);
    assert Displaced(h, 0, 2) by { assert Carries(h[1], Number("1")); }
    assert !Responded(answers, 0, 2);
  }

  /** Two commands run under one id; the response to either makes the observer forget both. */
  lemma OneResponseForTwo(answers: (nat, nat) -> bool)
    requires Matching([FromClient(COMMAND), FromClient(COMMAND), FromServer(PlainResponse("1"))], answers)
    ensures var h := [FromClient(COMMAND), FromClient(COMMAND), FromServer(PlainResponse("1"))];
            LooksIdle(h, 3) && HiddenWork(h, answers, 3)
  {
    var h := [FromClient(COMMAND), FromClient(COMMAND), FromServer(PlainResponse("1"))];
    ThreeEvents(h[0], h[1], h[2]);
    EmptyLooksIdle(h, 3);
    OneIsHidden(h, answers, Number("1"));
  }

  lemma OneIsHidden(h: seq<Event>, answers: (nat, nat) -> bool, id: RequestId)
    requires |h| == 3 && Matching(h, answers)
    requires forall i | 0 <= i < 2 :: IsWork(h[i]) && Registers(h[i]) == Some(id)
    requires AnswersId(h[2]) == Some(id)
    ensures HiddenWork(h, answers, 3)
  {
    assert Carries(h[1], id) && Carries(h[2], id);
    var open := if answers(0, 2) then 1 else 0;
    assert Displaced(h, open, 3) && !Responded(answers, open, 3);
  }

  const LISTED := PlainResponse("1").(reply := Reply(None, false, Some("a"), true, [Turn(Some("t"), true)], false))

  /** A turn runs in a resumed thread, but a request of the server's came under the id before the response. */
  lemma {:induction false} ServerRequestHidesTurn()
    ensures var h := [FromClient(THREAD_RESUME), FromServer(SERVER_REQUEST), FromServer(LISTED)];
            LooksIdle(h, 3) && Runs(h, 3, ("a", "t"), MissedStarts(h, ResponsesOf(h), ("a", "t")))
  {
    var h := [FromClient(THREAD_RESUME), FromServer(SERVER_REQUEST), FromServer(LISTED)];
    ThreeEvents(h[0], h[1], h[2]);
    EmptyLooksIdle(h, 3);
    assert Displaced(h, 0, 2) by { assert Carries(h[1], Number("1")); }
    assert ResponsesOf(h)(0, 2);
    assert Does(h, 0, 2, ReplyStarts(("a", "t")));
    assert MissedStarts(h, ResponsesOf(h), ("a", "t"))(2);
    assert NoneFrom(2, 3, ClosesOf(h, "a"));
  }

  // ---------------------------------------------------------------- between the two steps of one reply

  /** The request is off the table and the reply not yet handled: two locks are taken one after the other. */
  function Torn(o: Observation, id: RequestId): Observation {
    o.(pending := o.pending - {id})
  }

  /** Just then the request no longer counts, and what the reply starts does not count yet. */
  lemma TornReply(o: Observation, id: RequestId)
    ensures ActiveCount(Torn(o, id)) == ActiveCount(o) - if id in WorkingIds(o) then 1 else 0
  {
    var p := Torn(o, id);
    assert WorkingIds(p) == WorkingIds(o) - {id};
    assert BusyWithoutTurn(p) == BusyWithoutTurn(o) by {
      assert forall t :: HasTurn(p, t) == HasTurn(o, t);
    }
  }

  /** A turn that starts is counted before and after; a count taken in between is zero exactly if it was all. */
  lemma TornReplyHidesTurn(o: Observation, m: ServerMessage, thread: string, turn: string)
    requires m.id.Some? && m.id.value in o.pending && o.pending[m.id.value] == StartTurn(Some(thread))
    requires ReplyStarts((thread, turn))(StartTurn(Some(thread)), m) && (thread, turn) !in o.terminal
    ensures ActiveCount(o) >= 1 && ActiveCount(Answer(o, m)) >= 1
    ensures ActiveCount(Torn(o, m.id.value)) == 0 <==> ActiveCount(o) == 1
  {
    TornReply(o, m.id.value);
    assert m.id.value in WorkingIds(o);
    assert (thread, turn) in Answer(o, m).active;
  }

  // ---------------------------------------------------------------- unsubscribes

  function Unsubscribing(o: Observation): set<RequestId> {
    set id | id in o.pending && o.pending[id].Unsubscribe?
  }

  predicate RegistersUnsubscribe(e: Event) {
    Registers(e).Some? && e.client.name == Some(ThreadUnsubscribe)
  }

  /** How many of the first n events satisfy the predicate. */
  function Count(h: seq<Event>, n: nat, p: Event -> bool): nat
    requires n <= |h|
  {
    if n == 0 then 0 else Count(h, n - 1, p) + if p(h[n - 1]) then 1 else 0
  }

  /** A request of the client registers under the id of an unsubscribe that is still open. */
  ghost predicate Overwrites(h: seq<Event>, j: nat)
    requires j < |h|
  {
    Registers(h[j]).Some? && exists i: nat :: OpenUnsubscribe(h, i, Registers(h[j]).value, j)
  }

  ghost predicate OpenUnsubscribe(h: seq<Event>, i: nat, id: RequestId, j: nat) {
    OpenAt(h, i, id, j) && h[i].client.name == Some(ThreadUnsubscribe)
  }

  ghost function Overwritten(h: seq<Event>, n: nat): nat
    requires n <= |h|
  {
    if n == 0 then 0 else Overwritten(h, n - 1) + if Overwrites(h, n - 1) then 1 else 0
  }

  lemma OverwriteIsPending(h: seq<Event>, j: nat)
    requires j < |h|
    ensures Overwrites(h, j) <==> Registers(h[j]).Some? && Registers(h[j]).value in Unsubscribing(At(h, j))
  {
    if Registers(h[j]).Some? {
      var id := Registers(h[j]).value;
      PendingIsDeclared(h, j, id);
      if id in Unsubscribing(At(h, j)) {
        var i: nat :| OpenAt(h, i, id, j) && RequestOf(h[i].client) == Some(At(h, j).pending[id]);
        assert OpenUnsubscribe(h, i, id, j);
      }
    }
  }

  /** Finished unsubscribes and outstanding ones together. */
  function Unsubscribes(o: Observation): nat {
    o.unsubscribed + o.unsubscribeFailed + |Unsubscribing(o)|
  }

  lemma UnsubscribeStep(o: Observation, e: Event)
    ensures Unsubscribes(Step(o, e)) + (if TakesUnsubscribe(o, e) then 1 else 0)
         == Unsubscribes(o) + if RegistersUnsubscribe(e) then 1 else 0
  {
    match e
    case FromClient(m) => UnsubscribeAsked(o, m);
    case FromServer(m) => UnsubscribeAnswered(o, m);
    case Unreadable(_) =>
  }

  predicate TakesUnsubscribe(o: Observation, e: Event) {
    Registers(e).Some? && Registers(e).value in Unsubscribing(o)
  }

  lemma UnsubscribeAsked(o: Observation, m: ClientMessage)
    ensures Unsubscribes(OnClient(o, m)) + (if TakesUnsubscribe(o, FromClient(m)) then 1 else 0)
         == Unsubscribes(o) + if RegistersUnsubscribe(FromClient(m)) then 1 else 0
  {
    var e := FromClient(m);
    UnsubscribingAsked(o, m);
    if Registers(e).Some? {
      OnePut(Unsubscribing(o), m.id.value, RegistersUnsubscribe(e));
    }
  }

  lemma UnsubscribingAsked(o: Observation, m: ClientMessage)
    ensures var e, p := FromClient(m), OnClient(o, m);
            && p.unsubscribed == o.unsubscribed && p.unsubscribeFailed == o.unsubscribeFailed
            && Unsubscribing(p) == if Registers(e).Some? then Put(Unsubscribing(o), m.id.value, RegistersUnsubscribe(e))
                                   else Unsubscribing(o)
  {
  }

  function Put(s: set<RequestId>, id: RequestId, present: bool): set<RequestId> {
    s - {id} + if present then {id} else {}
  }

  lemma OnePut(s: set<RequestId>, id: RequestId, present: bool)
    ensures |Put(s, id, present)| + (if id in s then 1 else 0) == |s| + if present then 1 else 0
  {
  }

  lemma UnsubscribeAnswered(o: Observation, m: ServerMessage)
    ensures Unsubscribes(OnServer(o, m)) == Unsubscribes(o)
  {
    AnswerPending(o, m);
    UnsubscribeCounters(o, m);
    assert Unsubscribing(OnServer(o, m)) == Unsubscribing(o) - if m.id.Some? then {m.id.value} else {};
  }

  lemma UnsubscribeCounters(o: Observation, m: ServerMessage)
    ensures var p := OnServer(o, m);
            p.unsubscribed + p.unsubscribeFailed
            == o.unsubscribed + o.unsubscribeFailed + if m.id.Some? && m.id.value in Unsubscribing(o) then 1 else 0
  {
    var a := Answer(o, m);
    assert Notify(a, m).unsubscribed == a.unsubscribed && Notify(a, m).unsubscribeFailed == a.unsubscribeFailed;
  }

  /**
    Every unsubscribe observed has completed, failed, is outstanding, or lost
    its id to a later request; so the first three account for all of them
    exactly when no id of an open one was used again.
   */
  lemma UnsubscribesConserved(h: seq<Event>, n: nat)
    requires n <= |h|
    ensures Unsubscribes(At(h, n)) + Overwritten(h, n) == Count(h, n, RegistersUnsubscribe)
  {
    forall j: nat | j < n
      ensures Stays(UnsubscribeBalance(h), j)
    {
      UnsubscribeNext(h, j);
    }
    Steady(UnsubscribeBalance(h), 0, n);
    assert UnsubscribeBalance(h)(0) == 0;
    assert UnsubscribeBalance(h)(n) == 0;
  }

  ghost function UnsubscribeBalance(h: seq<Event>): nat -> int {
    (n: nat) =>
      if n <= |h| then Unsubscribes(At(h, n)) + Overwritten(h, n) - Count(h, n, RegistersUnsubscribe) else 0
  }

  lemma UnsubscribeNext(h: seq<Event>, n: nat)
    requires n < |h|
    ensures Stays(UnsubscribeBalance(h), n)
  {
    UnsubscribeStep(At(h, n), h[n]);
    OverwriteIsPending(h, n);
  }

  lemma {:induction false} NothingOverwritten(h: seq<Event>, n: nat)
    requires n <= |h|
    ensures Overwritten(h, n) == 0 <==> forall j: nat | j < n :: !Overwrites(h, j)
    decreases n
  {
    if n > 0 {
      NothingOverwritten(h, n - 1);
    }
  }

  // ---------------------------------------------------------------- archive epochs and user activity

  /** A successful archive reply takes the last loaded thread. */
  predicate EmptiesByArchive(o: Observation, e: Event) {
    && AnswersId(e).Some? && AnswersId(e).value in o.pending
    && !e.server.failed
    && var p := o.pending[AnswersId(e).value];
       p.RemoveThread? && p.archive && o.live == {p.threadId}
  }

  lemma EpochStep(o: Observation, e: Event)
    ensures Step(o, e).archiveEpoch == o.archiveEpoch + if EmptiesByArchive(o, e) then 1 else 0
    ensures EmptiesByArchive(o, e) ==> Step(o, e).live == {}
  {
    if e.FromServer? {
      var a := Answer(o, e.server);
      assert Notify(a, e.server).archiveEpoch == a.archiveEpoch;
      assert Notify(a, e.server).live <= a.live;
      if EmptiesByArchive(o, e) {
        assert a.live == {};
      }
    }
  }

  /** How many of the first n events loaded a thread that was not loaded before. */
  function Openings(h: seq<Event>, n: nat): nat
    requires n <= |h|
  {
    if n == 0 then 0
    else Openings(h, n - 1) + if At(h, n).live <= At(h, n - 1).live then 0 else 1
  }

  /** Each epoch uses up an opening, and a loaded thread holds one that is not used up yet. */
  lemma {:induction false} EpochsNeedOpenings(h: seq<Event>, n: nat)
    requires n <= |h|
    ensures At(h, n).archiveEpoch + (if At(h, n).live != {} then 1 else 0) <= Openings(h, n)
    decreases n
  {
    if n > 0 {
      EpochsNeedOpenings(h, n - 1);
      EpochStep(At(h, n - 1), h[n - 1]);
    }
  }

  predicate IsActivity(e: Event) {
    e.FromClient? && e.client.name in {
      Some(ThreadStart), Some(ThreadResume), Some(ThreadFork), Some(ThreadArchive), Some(ThreadUnarchive),
      Some(ThreadDelete), Some(ThreadCompact), Some(ThreadRollback), Some(ThreadNameSet),
      Some(TurnStart), Some(TurnInterrupt), Some(TurnSteer), Some(ReviewStart), Some(CommandExec)}
  }

  lemma {:induction false} GenerationCounts(h: seq<Event>, n: nat)
    requires n <= |h|
    ensures At(h, n).generation == Count(h, n, IsActivity)
    decreases n
  {
    if n > 0 {
      GenerationCounts(h, n - 1);
      GenerationStep(At(h, n - 1), h[n - 1]);
    }
  }

  lemma GenerationStep(o: Observation, e: Event)
    ensures Step(o, e).generation == o.generation + if IsActivity(e) then 1 else 0
  {
    if e.FromServer? {
      var a := Answer(o, e.server);
      assert a.generation == o.generation;
      assert Notify(a, e.server).generation == a.generation;
    }
  }

  lemma {:induction false} EqualCounts(h: seq<Event>, i: nat, j: nat, p: Event -> bool)
    requires i <= j <= |h|
    ensures Count(h, i, p) <= Count(h, j, p)
    ensures Count(h, i, p) == Count(h, j, p) <==> forall l | i <= l < j :: !p(h[l])
    decreases j
  {
    if i < j {
      EqualCounts(h, i, j - 1, p);
    }
  }

  /** Two samples show one generation exactly when no user activity was observed between them. */
  lemma QuietBetween(h: seq<Event>, i: nat, j: nat)
    requires i <= j <= |h|
    ensures At(h, i).generation == At(h, j).generation <==> forall l | i <= l < j :: !IsActivity(h[l])
  {
    GenerationCounts(h, i);
    GenerationCounts(h, j);
    EqualCounts(h, i, j, IsActivity);
  }
}

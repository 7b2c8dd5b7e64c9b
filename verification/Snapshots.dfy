/**
  Every number of a snapshot against the history: what is counted as active, how
  many threads are loaded, and how the unsubscribes and archives went.
 */
module Snapshots {
  import opened Common
  import opened Picks
  import opened Protocol
  import opened History
  import opened IdleTruth

  // ---------------------------------------------------------------- what is counted

  /** Things that count as active, each once. */
  datatype Item = ATurn(key: TurnKey) | AThread(thread: string) | ARequest(id: RequestId)

  ghost predicate RunsTurn(h: seq<Event>, n: nat, thread: string) {
    exists turn: string :: DeclaredActive(h, n, (thread, turn))
  }

  ghost predicate OpenWork(h: seq<Event>, i: nat, id: RequestId, n: nat) {
    OpenAt(h, i, id, n) && IsWork(h[i])
  }

  /** A running turn, a busy thread without one, a request for work without its reply. */
  ghost predicate IsActive(h: seq<Event>, n: nat, item: Item) {
    match item
    case ATurn(key) => DeclaredActive(h, n, key)
    case AThread(thread) => DeclaredBusy(h, n, thread) && !RunsTurn(h, n, thread)
    case ARequest(id) => exists i: nat :: OpenWork(h, i, id, n)
  }

  function TurnItems(o: Observation): set<Item> {
    set key | key in o.active :: ATurn(key)
  }

  function ThreadItems(o: Observation): set<Item> {
    set thread | thread in BusyWithoutTurn(o) :: AThread(thread)
  }

  function RequestItems(o: Observation): set<Item> {
    set id | id in WorkingIds(o) :: ARequest(id)
  }

  lemma ItemsAddUp(o: Observation)
    requires o.anonymous == 0
    ensures ActiveCount(o) == |TurnItems(o) + ThreadItems(o) + RequestItems(o)|
  {
    ImageSize(o.active, (key: TurnKey) => ATurn(key), TurnItems(o));
    ImageSize(BusyWithoutTurn(o), (thread: string) => AThread(thread), ThreadItems(o));
    ImageSize(WorkingIds(o), (id: RequestId) => ARequest(id), RequestItems(o));
    assert TurnItems(o) !! ThreadItems(o) && TurnItems(o) + ThreadItems(o) !! RequestItems(o);
  }

  lemma TurnIsActive(h: seq<Event>, n: nat, thread: string)
    requires n <= |h| && At(h, n).failures == 0
    ensures HasTurn(At(h, n), thread) <==> RunsTurn(h, n, thread)
  {
    forall turn: string
      ensures (thread, turn) in At(h, n).active <==> DeclaredActive(h, n, (thread, turn))
    {
      ActiveIsDeclared(h, n, (thread, turn));
    }
    if HasTurn(At(h, n), thread) {
      var key :| key in At(h, n).active && key.0 == thread;
      assert (thread, key.1) in At(h, n).active;
    }
  }

  lemma RequestIsActive(h: seq<Event>, n: nat, id: RequestId)
    requires n <= |h| && At(h, n).failures == 0
    ensures id in WorkingIds(At(h, n)) <==> exists i: nat :: OpenWork(h, i, id, n)
  {
    PendingIsDeclared(h, n, id);
    ReliableRequests(h, n);
    if id in WorkingIds(At(h, n)) {
      var i: nat :| OpenAt(h, i, id, n) && RequestOf(h[i].client) == Some(At(h, n).pending[id]);
      assert OpenWork(h, i, id, n);
    }
    if i: nat :| OpenWork(h, i, id, n) {
      assert Answerable(h[i]);
    }
  }

  lemma ItemIsActive(h: seq<Event>, n: nat, item: Item)
    requires n <= |h| && At(h, n).failures == 0
    ensures var o := At(h, n);
            item in TurnItems(o) + ThreadItems(o) + RequestItems(o) <==> IsActive(h, n, item)
  {
    match item
    case ATurn(key) => ActiveIsDeclared(h, n, key);
    case AThread(thread) =>
      BusyIsDeclared(h, n, thread);
      TurnIsActive(h, n, thread);
    case ARequest(id) => RequestIsActive(h, n, id);
  }

  /** A reliable snapshot counts everything that is active, and everything once. */
  lemma CountIsExact(h: seq<Event>, n: nat) returns (items: set<Item>)
    requires n <= |h| && SnapshotOf(At(h, n)).reliable
    ensures forall item :: item in items <==> IsActive(h, n, item)
    ensures SnapshotOf(At(h, n)).activeTurns == |items|
  {
    var o := At(h, n);
    items := TurnItems(o) + ThreadItems(o) + RequestItems(o);
    NoAnonymousTurns(h, n);
    ItemsAddUp(o);
    forall item
      ensures item in items <==> IsActive(h, n, item)
    {
      ItemIsActive(h, n, item);
    }
  }

  // ---------------------------------------------------------------- loaded and idle threads

  lemma LiveIsExact(h: seq<Event>, n: nat) returns (threads: set<string>)
    requires n <= |h|
    ensures forall thread :: thread in threads <==> DeclaredLive(h, n, thread)
    ensures SnapshotOf(At(h, n)).liveThreads == |threads|
  {
    threads := At(h, n).live;
    forall thread
      ensures thread in threads <==> DeclaredLive(h, n, thread)
    {
      LiveIsDeclared(h, n, thread);
    }
  }

  /** The threads that may be unsubscribed: loaded, not busy, and without a running turn. */
  lemma IdleIsExact(h: seq<Event>, n: nat, thread: string)
    requires n <= |h| && SnapshotOf(At(h, n)).reliable
    ensures thread in IdleThreads(At(h, n)) <==>
            DeclaredLive(h, n, thread) && !DeclaredBusy(h, n, thread) && !RunsTurn(h, n, thread)
  {
    LiveIsDeclared(h, n, thread);
    BusyIsDeclared(h, n, thread);
    TurnIsActive(h, n, thread);
  }

  // ---------------------------------------------------------------- unsubscribes

  /** Event j is the reply to an unsubscribe. */
  ghost predicate EndsUnsubscribe(h: seq<Event>, j: nat) {
    exists i: nat :: RepliesUnsubscribe(h, i, j)
  }

  ghost predicate RepliesUnsubscribe(h: seq<Event>, i: nat, j: nat) {
    Replies(h, i, j) && h[i].client.name == Some(ThreadUnsubscribe)
  }

  /** And it says that the thread is now unsubscribed. */
  ghost function SucceedsAt(h: seq<Event>): nat -> bool {
    (j: nat) => EndsUnsubscribe(h, j) && !h[j].server.failed && h[j].server.reply.unsubscribed
  }

  ghost function FailsAt(h: seq<Event>): nat -> bool {
    (j: nat) => EndsUnsubscribe(h, j) && (h[j].server.failed || !h[j].server.reply.unsubscribed)
  }

  function EndsIt(): (PendingRequest, ServerMessage) -> bool {
    (p: PendingRequest, m: ServerMessage) => p.Unsubscribe?
  }

  lemma EndsUnsubscribeIff(h: seq<Event>, j: nat)
    requires j < |h|
    ensures EndsUnsubscribe(h, j) <==> AnswerDoes(At(h, j), h[j], EndsIt())
  {
    ReplyIsAnswer(h, j, EndsIt());
    forall i: nat {
      RepliesUnsubscribeAt(h, i, j);
    }
  }

  lemma RepliesUnsubscribeAt(h: seq<Event>, i: nat, j: nat)
    ensures RepliesUnsubscribe(h, i, j) <==>
            Replies(h, i, j) && EndsIt()(RequestOf(h[i].client).value, h[j].server)
  {
  }

  lemma UnsubscribeStepCounts(o: Observation, e: Event)
    ensures var p, ends := Step(o, e), AnswerDoes(o, e, EndsIt());
            && p.unsubscribed == o.unsubscribed
               + (if ends && !e.server.failed && e.server.reply.unsubscribed then 1 else 0)
            && p.unsubscribeFailed == o.unsubscribeFailed
               + (if ends && (e.server.failed || !e.server.reply.unsubscribed) then 1 else 0)
  {
    if e.FromServer? {
      var a := Answer(o, e.server);
      assert Notify(a, e.server).unsubscribed == a.unsubscribed;
      assert Notify(a, e.server).unsubscribeFailed == a.unsubscribeFailed;
    }
  }

  function UnsubscribedAt(h: seq<Event>): nat -> int {
    (n: nat) => if n <= |h| then At(h, n).unsubscribed else 0
  }

  function UnsubscribeFailedAt(h: seq<Event>): nat -> int {
    (n: nat) => if n <= |h| then At(h, n).unsubscribeFailed else 0
  }

  /** Both counters are exact: each reply to an unsubscribe counts once, as what it says. */
  lemma UnsubscribesAreExact(h: seq<Event>, n: nat)
    requires n <= |h|
    ensures SnapshotOf(At(h, n)).unsubscribed == |Places(n, SucceedsAt(h))|
    ensures SnapshotOf(At(h, n)).unsubscribeFailed == |Places(n, FailsAt(h))|
  {
    forall j: nat | j < n {
      UnsubscribeCounts(h, j);
    }
    StartsAtNothing(h);
    Counted(n, UnsubscribedAt(h), SucceedsAt(h));
    Counted(n, UnsubscribeFailedAt(h), FailsAt(h));
    assert UnsubscribedAt(h)(n) == At(h, n).unsubscribed && UnsubscribeFailedAt(h)(n) == At(h, n).unsubscribeFailed;
  }

  lemma StartsAtNothing(h: seq<Event>)
    ensures UnsubscribedAt(h)(0) == 0 && UnsubscribeFailedAt(h)(0) == 0 && EpochAt(h)(0) == 0
  {
  }

  lemma UnsubscribeCounts(h: seq<Event>, j: nat)
    requires j < |h|
    ensures Counts(UnsubscribedAt(h), SucceedsAt(h), j)
    ensures Counts(UnsubscribeFailedAt(h), FailsAt(h), j)
  {
    EndsUnsubscribeIff(h, j);
    UnsubscribeStepCounts(At(h, j), h[j]);
    StepIsNext(h, j);
    var ends := EndsUnsubscribe(h, j);
    assert SucceedsAt(h)(j) <==> ends && !h[j].server.failed && h[j].server.reply.unsubscribed;
    assert FailsAt(h)(j) <==> ends && (h[j].server.failed || !h[j].server.reply.unsubscribed);
  }

  lemma StepIsNext(h: seq<Event>, j: nat)
    requires j < |h|
    ensures UnsubscribedAt(h)(j) == At(h, j).unsubscribed
    ensures UnsubscribeFailedAt(h)(j) == At(h, j).unsubscribeFailed
    ensures UnsubscribedAt(h)(j + 1) == Step(At(h, j), h[j]).unsubscribed
    ensures UnsubscribeFailedAt(h)(j + 1) == Step(At(h, j), h[j]).unsubscribeFailed
  {
  }

  // ---------------------------------------------------------------- archives

  /** Event j is the successful reply to the archive of the only thread then loaded. */
  ghost predicate ArchivesLast(h: seq<Event>, j: nat) {
    exists i: nat :: ArchivesLastOf(h, i, j)
  }

  ghost predicate ArchivesLastOf(h: seq<Event>, i: nat, j: nat) {
    && Replies(h, i, j) && !h[j].server.failed
    && h[i].client.name == Some(ThreadArchive) && NamesThread(h[i].client)
    && forall thread :: DeclaredLive(h, j, thread) <==> Names(h[i].client, thread)
  }

  ghost function ArchivesLastAt(h: seq<Event>): nat -> bool {
    (j: nat) => ArchivesLast(h, j)
  }

  lemma {:induction false} ArchivesLastIff(h: seq<Event>, j: nat)
    requires j < |h|
    ensures ArchivesLast(h, j) <==> EmptiesByArchive(At(h, j), h[j])
  {
    forall thread
      ensures thread in At(h, j).live <==> DeclaredLive(h, j, thread)
    {
      LiveIsDeclared(h, j, thread);
    }
    if AnswersId(h[j]).Some? {
      var id := AnswersId(h[j]).value;
      PendingIsDeclared(h, j, id);
      if EmptiesByArchive(At(h, j), h[j]) {
        var i: nat :| OpenAt(h, i, id, j) && RequestOf(h[i].client) == Some(At(h, j).pending[id]);
        assert ArchivesLastOf(h, i, j);
      }
      if i: nat :| ArchivesLastOf(h, i, j) {
        var last := h[i].client.params.value.threadId.value;
        assert Names(h[i].client, last);
        assert At(h, j).live == {last};
      }
    }
  }

  function EpochAt(h: seq<Event>): nat -> int {
    (n: nat) => if n <= |h| then At(h, n).archiveEpoch else 0
  }

  /** The epoch is the number of archives that took the last loaded thread. */
  lemma EpochIsExact(h: seq<Event>, n: nat)
    requires n <= |h|
    ensures SnapshotOf(At(h, n)).archiveEpoch == |Places(n, ArchivesLastAt(h))|
  {
    forall j: nat | j < n {
      EpochCounts(h, j);
    }
    StartsAtNothing(h);
    Counted(n, EpochAt(h), ArchivesLastAt(h));
    assert EpochAt(h)(n) == At(h, n).archiveEpoch;
  }

  lemma EpochCounts(h: seq<Event>, j: nat)
    requires j < |h|
    ensures Counts(EpochAt(h), ArchivesLastAt(h), j)
  {
    ArchivesLastIff(h, j);
    EpochStep(At(h, j), h[j]);
  }

  // ---------------------------------------------------------------- turns asked for without a thread

  /** The reply to such a request says that it failed. */
  ghost predicate FailsThreadless(h: seq<Event>, i: nat, j: nat) {
    && Replies(h, i, j) && h[j].server.failed
    && h[i].client.name in {Some(TurnStart), Some(ReviewStart)} && !NamesThread(h[i].client)
  }

  /** A turn asked for without a thread, less such turns that failed, and ends that do not say of which turn. */
  ghost function Drift(h: seq<Event>, j: nat): int
    requires j < |h|
  {
    match h[j]
    case Unreadable(_) => 0
    case FromClient(m) => if m.name in {Some(TurnStart), Some(ReviewStart)} && !NamesThread(m) then 1 else 0
    case FromServer(m) =>
      (if exists i: nat :: FailsThreadless(h, i, j) then -1 else 0)
      + if m.name in {Some(TurnCompleted), Some(TurnFailed), Some(TurnCancelled)}
           && (m.threadId.None? || m.turnId.None?) then -1 else 0
  }

  ghost function DriftAt(h: seq<Event>): nat -> int {
    (j: nat) => if j < |h| then Drift(h, j) else 0
  }

  function DropsThreadless(): (PendingRequest, ServerMessage) -> bool {
    (p: PendingRequest, m: ServerMessage) => p == StartTurn(None) && m.failed
  }

  lemma FailsThreadlessIff(h: seq<Event>, j: nat)
    requires j < |h|
    ensures (exists i: nat :: FailsThreadless(h, i, j)) <==> AnswerDoes(At(h, j), h[j], DropsThreadless())
  {
    ReplyIsAnswer(h, j, DropsThreadless());
    forall i: nat {
      FailsThreadlessAt(h, i, j);
    }
  }

  lemma FailsThreadlessAt(h: seq<Event>, i: nat, j: nat)
    ensures FailsThreadless(h, i, j) <==>
            Replies(h, i, j) && DropsThreadless()(RequestOf(h[i].client).value, h[j].server)
  {
  }

  lemma AnonymousDrifts(h: seq<Event>, j: nat)
    requires j < |h|
    ensures At(h, j + 1).anonymous == Max(0, At(h, j).anonymous + Drift(h, j))
  {
    FailsThreadlessIff(h, j);
    AnonymousNext(At(h, j), h[j]);
  }

  lemma AnonymousNext(o: Observation, e: Event)
    ensures Step(o, e).anonymous ==
            match e
            case Unreadable(_) => o.anonymous
            case FromClient(m) =>
              o.anonymous
              + if m.name in {Some(TurnStart), Some(ReviewStart)} && !NamesThread(m) then 1 else 0
            case FromServer(m) =>
              var left := if AnswerDoes(o, e, DropsThreadless()) then Max(0, o.anonymous - 1) else o.anonymous;
              if m.name in {Some(TurnCompleted), Some(TurnFailed), Some(TurnCancelled)}
                 && (m.threadId.None? || m.turnId.None?) then Max(0, left - 1) else left
  {
    if e.FromServer? {
      var a := Answer(o, e.server);
      assert a.anonymous == if AnswerDoes(o, e, DropsThreadless()) then Max(0, o.anonymous - 1) else o.anonymous;
    }
  }

  function AnonymousAt(h: seq<Event>): nat -> int {
    (n: nat) => if n <= |h| then At(h, n).anonymous else 0
  }

  lemma AnonymousFloats(h: seq<Event>, j: nat)
    requires j < |h|
    ensures Floats(AnonymousAt(h), DriftAt(h), j)
  {
    AnonymousDrifts(h, j);
  }

  /** The counter is the largest surplus that any part of the history up to now has left. */
  lemma AnonymousIsSurplus(h: seq<Event>, n: nat) returns (k: nat)
    requires n <= |h|
    ensures k <= n && At(h, n).anonymous == Surplus(DriftAt(h), k, n)
    ensures forall l: nat | l <= n :: Surplus(DriftAt(h), l, n) <= At(h, n).anonymous
  {
    forall j: nat | j < n {
      AnonymousFloats(h, j);
    }
    k := LargestSurplus(AnonymousAt(h), DriftAt(h), n);
    assert AnonymousAt(h)(n) == At(h, n).anonymous;
  }
}

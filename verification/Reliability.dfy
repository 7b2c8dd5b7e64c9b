/**
  When a snapshot is reliable, and what its counters say: declared by the events
  alone, without the state that the observer keeps.
 */
module Reliability {
  import opened Common
  import opened Picks
  import opened Protocol
  import opened History
  import opened Bytes
  import opened Observer

  // ---------------------------------------------------------------- events that cast doubt

  /** Work asked for without an id, or a turn asked for without a thread. */
  predicate FaultyRequest(m: ClientMessage) {
    || (m.name in {Some(TurnStart), Some(ReviewStart), Some(CommandExec)} && m.id.None?)
    || (m.name in {Some(TurnStart), Some(ReviewStart)} && !NamesThread(m))
  }

  /** A turn's notice that does not say which turn, or a thread's with a status nobody knows. */
  predicate FaultyNotice(m: ServerMessage) {
    || (m.name in {Some(TurnStarted), Some(TurnCompleted), Some(TurnFailed), Some(TurnCancelled)}
        && (m.threadId.None? || m.turnId.None?))
    || (m.name == Some(ThreadStatusChanged) && m.threadId.Some?
        && m.status !in {Some(Active), Some(Idle), Some(NotLoaded)})
  }

  /** A successful reply to a turn asked for in a thread, without the turn's id. */
  ghost predicate FaultyReply(h: seq<Event>, i: nat, j: nat) {
    && Replies(h, i, j)
    && h[i].client.name in {Some(TurnStart), Some(ReviewStart)} && NamesThread(h[i].client)
    && !h[j].server.failed && h[j].server.reply.turnId.None?
  }

  /** The turns that ended before n. */
  ghost function EndedTurns(h: seq<Event>, n: nat): set<TurnKey>
    requires n <= |h|
  {
    set j: nat | j < n && EndsSome(h[j]) :: (h[j].server.threadId.value, h[j].server.turnId.value)
  }

  predicate EndsSome(e: Event) {
    e.FromServer? && e.server.name in {Some(TurnCompleted), Some(TurnFailed), Some(TurnCancelled)}
    && e.server.threadId.Some? && e.server.turnId.Some?
  }

  ghost predicate Faulty(h: seq<Event>, j: nat)
    requires j < |h|
  {
    match h[j]
    case Unreadable(n) => n > 0
    case FromClient(m) => FaultyRequest(m)
    case FromServer(m) =>
      || FaultyNotice(m)
      || (exists i: nat :: FaultyReply(h, i, j))
      || (EndsSome(h[j]) && |EndedTurns(h, j)| >= 4096)
  }

  // ---------------------------------------------------------------- and no others

  function ReplyFaults(): (PendingRequest, ServerMessage) -> bool {
    (p: PendingRequest, m: ServerMessage) => p.StartTurn? && p.thread.Some? && !m.failed && m.reply.turnId.None?
  }

  lemma FaultyReplyIff(h: seq<Event>, j: nat)
    requires j < |h|
    ensures (exists i: nat :: FaultyReply(h, i, j)) <==> AnswerDoes(At(h, j), h[j], ReplyFaults())
  {
    ReplyIsAnswer(h, j, ReplyFaults());
    forall i: nat {
      FaultyReplyAt(h, i, j);
    }
  }

  lemma FaultyReplyAt(h: seq<Event>, i: nat, j: nat)
    ensures FaultyReply(h, i, j) <==> Replies(h, i, j) && ReplyFaults()(RequestOf(h[i].client).value, h[j].server)
  {
  }

  lemma EndedAreTerminal(h: seq<Event>, n: nat)
    requires n <= |h| && At(h, n).failures == 0
    ensures At(h, n).terminal == EndedTurns(h, n)
  {
    forall key: TurnKey
      ensures key in At(h, n).terminal <==> key in EndedTurns(h, n)
    {
      ActiveIsDeclared(h, n, key);
      if key in EndedTurns(h, n) {
        var j: nat :| j < n && EndsSome(h[j]) && key == (h[j].server.threadId.value, h[j].server.turnId.value);
        assert Ends(h[j], key);
      }
      if Ended(h, n, key) {
        var j :| 0 <= j < n <= |h| && Ends(h[j], key);
        assert EndsSome(h[j]) && key == (h[j].server.threadId.value, h[j].server.turnId.value);
      }
    }
  }

  /** One step counts a failure exactly when these say so. */
  lemma StepFails(o: Observation, e: Event)
    requires o.failures == 0
    ensures Step(o, e).failures > 0 <==>
            match e
            case Unreadable(n) => n > 0
            case FromClient(m) => FaultyRequest(m)
            case FromServer(m) =>
              FaultyNotice(m) || AnswerDoes(o, e, ReplyFaults()) || (EndsSome(e) && |o.terminal| >= 4096)
  {
    if e.FromServer? {
      var a := Answer(o, e.server);
      assert a.terminal == o.terminal;
      assert a.failures > 0 <==> AnswerDoes(o, e, ReplyFaults());
      NoticeFails(a, e.server);
    }
  }

  lemma NoticeFails(o: Observation, m: ServerMessage)
    ensures Notify(o, m).failures > 0 <==>
            o.failures > 0 || FaultyNotice(m) || (EndsSome(FromServer(m)) && |o.terminal| >= 4096)
  {
  }

  lemma FaultyStep(h: seq<Event>, j: nat)
    requires j < |h| && At(h, j).failures == 0
    ensures At(h, j + 1).failures > 0 <==> Faulty(h, j)
  {
    StepFails(At(h, j), h[j]);
    FaultyReplyIff(h, j);
    EndedAreTerminal(h, j);
  }

  function ReliableAt(h: seq<Event>): nat -> bool {
    (n: nat) => n <= |h| && At(h, n).failures == 0
  }

  ghost function FaultyAt(h: seq<Event>): nat -> bool {
    (j: nat) => j < |h| && Faulty(h, j)
  }

  lemma {:induction false} ReliableStep(h: seq<Event>, j: nat)
    requires j < |h|
    ensures EndsWhenBad(ReliableAt(h), FaultyAt(h), j)
  {
    ReliableNext(h, j);
  }

  lemma {:induction false} ReliableNext(h: seq<Event>, j: nat)
    requires j < |h|
    ensures At(h, j + 1).failures == 0 <==> At(h, j).failures == 0 && !Faulty(h, j)
  {
    HistoryGrows(h, j, j + 1);
    if At(h, j).failures == 0 {
      FaultyStep(h, j);
    }
  }

  /** A snapshot is reliable exactly when no event before it was faulty; doubt is never forgotten. */
  lemma ReliableIff(h: seq<Event>, n: nat)
    requires n <= |h|
    ensures SnapshotOf(At(h, n)).reliable <==> NoDoubt(h, n)
  {
    forall j: nat | j < n {
      ReliableStep(h, j);
    }
    GoodUnlessBad(n, ReliableAt(h), FaultyAt(h));
    assert SnapshotOf(At(h, n)).reliable == ReliableAt(h)(n);
    forall j: nat | j < n
      ensures FaultyAt(h)(j) == Faulty(h, j)
    {
    }
  }

  /** Nothing before n cast any doubt. */
  ghost predicate NoDoubt(h: seq<Event>, n: nat) {
    forall j: nat | j < n <= |h| :: !Faulty(h, j)
  }

  // ---------------------------------------------------------------- what could not be read

  /** This line is blank, or the parser reads it. */
  predicate IsRead(parser: Parser, direction: Direction, line: seq<byte>) {
    || Blank(line)
    || (direction.ClientToServer? && parser.client(line).Some?)
    || (direction.ServerToClient? && parser.server(line).Some?)
  }

  /**
    Bytes that could not be read make the observer unreliable for good: after a
    call a snapshot is reliable only if the decoder met no failure and every
    line that is not blank was read.
   */
  lemma ReliableOnlyIfRead(
    parser: Parser, direction: Direction, h: seq<Event>, lines: seq<seq<byte>>, failures: nat, later: seq<Event>)
    ensures var g := h + parser.FedEvents(direction, lines, failures) + later;
            SnapshotOf(At(g, |g|)).reliable ==>
            failures == 0 && forall i | 0 <= i < |lines| :: IsRead(parser, direction, lines[i])
  {
    var fed := parser.FedEvents(direction, lines, failures);
    var g := h + fed + later;
    ReliableIff(g, |g|);
    if failures > 0 {
      assert g[|h|] == fed[0] == Unreadable(failures);
      assert Faulty(g, |h|);
    }
    if i :| 0 <= i < |lines| && !IsRead(parser, direction, lines[i]) {
      var k := UnreadEvent(parser, direction, lines, failures, i);
      assert g[|h| + k] == fed[k];
      assert Faulty(g, |h| + k);
    }
  }

  lemma UnreadEvent(parser: Parser, direction: Direction, lines: seq<seq<byte>>, failures: nat, i: nat)
    returns (k: nat)
    requires i < |lines| && !IsRead(parser, direction, lines[i])
    ensures k < |parser.FedEvents(direction, lines, failures)|
    ensures parser.FedEvents(direction, lines, failures)[k] == Unreadable(1)
  {
    LinesAreEvents(parser, direction, lines);
    var places := Places(|lines|, LineAt(lines));
    assert i in places;
    var m :| 0 <= m < |places| && places[m] == i;
    k := m + if failures > 0 then 1 else 0;
    assert parser.EventsOf(direction, lines)[m] == MeaningAt(parser, direction, lines)(i);
  }
}

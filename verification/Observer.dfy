/**
  The observer as the object it is: tables and counters updated message by
  message, fed by one decoder per direction. Its ghost history ties every state
  it can be in to the theorems of History.dfy and IdleTruth.dfy.
 */
module Observer {
  import opened Common
  import opened Bytes
  import opened Picks
  import opened Protocol
  import opened History
  import opened WireBuffers
  import W = Wire

  datatype Direction = ClientToServer | ServerToClient

  /** How message text is read. JSON itself is not part of this model. */
  datatype Parser = Parser(
    client: seq<byte> -> Option<ClientMessage>,
    server: seq<byte> -> Option<ServerMessage>)
  {
    function EventOf(direction: Direction, line: seq<byte>): seq<Event> {
      if forall i | 0 <= i < |line| :: W.IsSpace(line[i]) then []
      else match direction
        case ClientToServer =>
          var m := client(line);
          if m.Some? then [FromClient(m.value)] else [Unreadable(1)]
        case ServerToClient =>
          var m := server(line);
          if m.Some? then [FromServer(m.value)] else [Unreadable(1)]
    }

    function EventsOf(direction: Direction, lines: seq<seq<byte>>): seq<Event> {
      if lines == [] then [] else EventOf(direction, lines[0]) + EventsOf(direction, lines[1..])
    }

    lemma NextLine(direction: Direction, lines: seq<seq<byte>>, i: nat, before: seq<Event>)
      requires i < |lines|
      ensures before + EventsOf(direction, lines[i..])
           == before + EventOf(direction, lines[i]) + EventsOf(direction, lines[i + 1..])
    {
      assert lines[i..][1..] == lines[i + 1..];
    }

    /** The events of one decoder call: its failures first, then its messages. */
    function FedEvents(direction: Direction, messages: seq<seq<byte>>, failures: nat): seq<Event> {
      (if failures > 0 then [Unreadable(failures)] else []) + EventsOf(direction, messages)
    }
  }

  // ---------------------------------------------------------------- what lines mean

  predicate Blank(line: seq<byte>) {
    forall i | 0 <= i < |line| :: line[i] in {32, 9, 10, 12, 13}
  }

  function LineAt(lines: seq<seq<byte>>): nat -> bool {
    (i: nat) => i < |lines| && !Blank(lines[i])
  }

  /** What a line that is not blank stands for: a message, or one more doubt. */
  function MeaningAt(parser: Parser, direction: Direction, lines: seq<seq<byte>>): nat -> Event {
    (i: nat) =>
      if i >= |lines| then Unreadable(0)
      else match direction
        case ClientToServer =>
          (match parser.client(lines[i]) case Some(m) => FromClient(m) case None => Unreadable(1))
        case ServerToClient =>
          (match parser.server(lines[i]) case Some(m) => FromServer(m) case None => Unreadable(1))
  }

  function EventsSoFar(parser: Parser, direction: Direction, lines: seq<seq<byte>>): nat -> seq<Event> {
    (n: nat) => if n <= |lines| then parser.EventsOf(direction, lines[..n]) else []
  }

  lemma {:induction false} EventsAppend(
    parser: Parser, direction: Direction, left: seq<seq<byte>>, right: seq<seq<byte>>)
    ensures parser.EventsOf(direction, left + right)
         == parser.EventsOf(direction, left) + parser.EventsOf(direction, right)
    decreases |left|
  {
    if left == [] {
      assert left + right == right;
    } else {
      assert (left + right)[1..] == left[1..] + right;
      EventsAppend(parser, direction, left[1..], right);
    }
  }

  lemma OneLine(parser: Parser, direction: Direction, line: seq<byte>)
    ensures parser.EventsOf(direction, [line]) == parser.EventOf(direction, line)
  {
    assert [line][1..] == [];
    assert parser.EventOf(direction, line) + [] == parser.EventOf(direction, line);
  }

  lemma OneMeaning(parser: Parser, direction: Direction, lines: seq<seq<byte>>, i: nat)
    requires i < |lines|
    ensures parser.EventOf(direction, lines[i])
         == if LineAt(lines)(i) then [MeaningAt(parser, direction, lines)(i)] else []
  {
    assert Blank(lines[i]) <==> forall k | 0 <= k < |lines[i]| :: W.IsSpace(lines[i][k]);
  }

  /** The events of some lines are the meanings of those that are not blank, in order. */
  lemma LinesAreEvents(parser: Parser, direction: Direction, lines: seq<seq<byte>>)
    ensures parser.EventsOf(direction, lines)
         == Picked(|lines|, LineAt(lines), MeaningAt(parser, direction, lines))
  {
    forall i: nat | i < |lines| {
      LineGains(parser, direction, lines, i);
    }
    Gathered(|lines|, EventsSoFar(parser, direction, lines), LineAt(lines), MeaningAt(parser, direction, lines));
    assert lines[..|lines|] == lines;
  }

  lemma LineGains(parser: Parser, direction: Direction, lines: seq<seq<byte>>, i: nat)
    requires i < |lines|
    ensures Gains(EventsSoFar(parser, direction, lines), LineAt(lines), MeaningAt(parser, direction, lines), i)
  {
    assert lines[..i + 1] == lines[..i] + [lines[i]];
    EventsAppend(parser, direction, lines[..i], [lines[i]]);
    OneLine(parser, direction, lines[i]);
    OneMeaning(parser, direction, lines, i);
  }

  lemma {:induction false} AtExtends(h: seq<Event>, more: seq<Event>, n: nat)
    requires n <= |h|
    ensures At(h + more, n) == At(h, n)
    decreases n
  {
    if n > 0 {
      AtExtends(h, more, n - 1);
    }
  }

  lemma AtAppend(h: seq<Event>, e: Event)
    ensures At(h + [e], |h + [e]|) == Step(At(h, |h|), e)
  {
    AtExtends(h, [e], |h|);
  }

  class ProtocolObserver {
    const parser: Parser
    const clientWire: WireBuffer
    const serverWire: WireBuffer
    var pending: map<RequestId, PendingRequest>
    var liveThreads: set<string>
    var archiveEmptyEpoch: nat
    var active: set<TurnKey>
    var terminal: set<TurnKey>
    var busyThreads: set<string>
    var unsubscribeCompleted: nat
    var unsubscribeFailed: nat
    var activeTurns: nat
    var parseFailures: nat
    var clientActivityGeneration: nat
    var resumeAttempts: seq<ResumeAttempt>
    /** Every event observed, and the attempts already taken. */
    ghost var history: seq<Event>
    ghost var taken: seq<ResumeAttempt>

    constructor (parser: Parser)
      ensures Valid() && history == [] && taken == [] && this.parser == parser
      ensures clientWire.View() == W.FRESH && serverWire.View() == W.FRESH
      ensures fresh(clientWire) && fresh(serverWire)
    {
      this.parser := parser;
      clientWire := new WireBuffer();
      serverWire := new WireBuffer();
      pending, liveThreads, archiveEmptyEpoch := map[], {}, 0;
      active, terminal, busyThreads := {}, {}, {};
      unsubscribeCompleted, unsubscribeFailed := 0, 0;
      activeTurns, parseFailures, clientActivityGeneration := 0, 0, 0;
      resumeAttempts, history, taken := [], [], [];
    }

    ghost function View(): Observation
      reads this
    {
      Observation(pending, liveThreads, archiveEmptyEpoch, active, terminal, busyThreads,
                  unsubscribeCompleted, unsubscribeFailed, activeTurns, parseFailures,
                  clientActivityGeneration, taken + resumeAttempts)
    }

    /** The object is in the state its history declares. */
    ghost predicate Valid()
      reads this
    {
      clientWire != serverWire && View() == At(history, |history|)
    }

    function Wire(direction: Direction): WireBuffer {
      if direction.ClientToServer? then clientWire else serverWire
    }

    ghost method Record(e: Event)
      requires View() == Step(At(history, |history|), e) && clientWire != serverWire
      modifies this`history
      ensures history == old(history) + [e] && Valid()
    {
      AtAppend(history, e);
      history := history + [e];
    }

    /** Bytes pass through unchanged; what they complete is observed. */
    method Observe(direction: Direction, bytes: seq<byte>) returns (forwarded: seq<byte>)
      requires Valid()
      modifies this, Wire(direction)
      ensures Valid() && forwarded == bytes && taken == old(taken)
      ensures var f := W.Feed(old(Wire(direction).View()), bytes);
              && Wire(direction).View() == f.state
              && history == old(history) + parser.FedEvents(direction, f.messages, f.failures)
    {
      var messages, failures := Wire(direction).Feed(bytes);
      ObserveFed(direction, messages, failures);
      return bytes;
    }

    method ObserveFed(direction: Direction, messages: seq<seq<byte>>, failures: nat)
      requires Valid()
      modifies this
      ensures Valid() && taken == old(taken)
      ensures history == old(history) + parser.FedEvents(direction, messages, failures)
    {
      ghost var h := history;
      if failures > 0 {
        CountFailures(failures);
      }
      ObserveLines(direction, messages);
      AppendThree(h, if failures > 0 then [Unreadable(failures)] else [], parser.EventsOf(direction, messages));
    }

    method CountFailures(n: nat)
      requires Valid()
      modifies this
      ensures Valid() && taken == old(taken)
      ensures history == old(history) + [Unreadable(n)]
    {
      parseFailures := parseFailures + n;
      Record(Unreadable(n));
    }

    method ObserveLines(direction: Direction, lines: seq<seq<byte>>)
      requires Valid()
      modifies this
      ensures Valid() && taken == old(taken)
      ensures history == old(history) + parser.EventsOf(direction, lines)
    {
      ghost var all := old(history) + parser.EventsOf(direction, lines);
      for i := 0 to |lines|
        invariant Valid() && taken == old(taken)
        invariant all == history + parser.EventsOf(direction, lines[i..])
      {
        ghost var was := history;
        ObserveLine(direction, lines[i]);
        parser.NextLine(direction, lines, i, was);
      }
    }

    method ObserveLine(direction: Direction, line: seq<byte>)
      requires Valid()
      modifies this
      ensures Valid() && taken == old(taken)
      ensures history == old(history) + parser.EventOf(direction, line)
    {
      if forall i | 0 <= i < |line| :: W.IsSpace(line[i]) {
        return;
      }
      match direction {
        case ClientToServer =>
          var m := parser.client(line);
          if m.Some? {
            ObserveClientMessage(m.value);
            Record(FromClient(m.value));
            return;
          }
        case ServerToClient =>
          var m := parser.server(line);
          if m.Some? {
            ObserveServerMessage(m.value);
            Record(FromServer(m.value));
            return;
          }
      }
      CountFailures(1);
    }

    method ObserveClientMessage(m: ClientMessage)
      modifies this
      ensures View() == OnClient(old(View()), m)
      ensures taken == old(taken) && history == old(history)
    {
      if m.name.None? {
        return;
      }
      CountMessage(m);
      QueueResume(m);
      RegisterRequest(m);
    }

    method CountMessage(m: ClientMessage)
      requires m.name.Some?
      modifies this`clientActivityGeneration, this`parseFailures
      ensures clientActivityGeneration ==
              old(clientActivityGeneration) + if IsUserActivity(m.name.value) then 1 else 0
      ensures parseFailures == old(parseFailures) + if StartsWork(m) && m.id.None? then 1 else 0
    {
      if IsUserActivity(m.name.value) {
        clientActivityGeneration := clientActivityGeneration + 1;
      }
      if StartsWork(m) && m.id.None? {
        parseFailures := parseFailures + 1;
      }
    }

    method RegisterRequest(m: ClientMessage)
      modifies this`activeTurns, this`parseFailures, this`pending
      ensures activeTurns == old(activeTurns) + if Threadless(m) then 1 else 0
      ensures parseFailures == old(parseFailures) + if Threadless(m) then 1 else 0
      ensures pending == if m.id.Some? && RequestOf(m).Some?
                         then old(pending)[m.id.value := RequestOf(m).value] else old(pending)
    {
      if Threadless(m) {
        activeTurns := activeTurns + 1;
        parseFailures := parseFailures + 1;
      }
      var request := RequestOf(m);
      if m.id.Some? && request.Some? {
        pending := pending[m.id.value := request.value];
      }
    }

    method QueueResume(m: ClientMessage)
      modifies this`resumeAttempts
      ensures resumeAttempts == old(resumeAttempts) + ResumeOf(m)
      ensures taken + resumeAttempts == taken + old(resumeAttempts) + ResumeOf(m)
    {
      if m.name == Some(ThreadResume) && ThreadOf(m).Some? {
        resumeAttempts := resumeAttempts + [ResumeAttempt(ThreadOf(m).value, m.params.value)];
      }
      assert taken + (old(resumeAttempts) + ResumeOf(m)) == taken + old(resumeAttempts) + ResumeOf(m);
    }

    method ObserveServerMessage(m: ServerMessage)
      modifies this
      ensures View() == OnServer(old(View()), m)
      ensures taken == old(taken) && history == old(history)
    {
      if m.id.Some? && m.id.value in pending {
        var request := pending[m.id.value];
        pending := pending - {m.id.value};
        FinishRequest(request, m);
      }
      Notice(m);
    }

    method Notice(m: ServerMessage)
      modifies this
      ensures View() == Notify(old(View()), m)
      ensures taken == old(taken) && history == old(history)
    {
      if m.name.None? {
        return;
      }
      match m.name.value {
        case TurnStarted =>
          if m.threadId.Some? && m.turnId.Some? {
            var key := (m.threadId.value, m.turnId.value);
            if key !in terminal {
              active := active + {key};
            }
          } else {
            parseFailures := parseFailures + 1;
          }
        case ThreadStatusChanged =>
          if m.threadId.Some? {
            match m.status {
              case Some(Active) => busyThreads := busyThreads + {m.threadId.value};
              case Some(Idle) => busyThreads := busyThreads - {m.threadId.value};
              case Some(NotLoaded) => busyThreads := busyThreads - {m.threadId.value};
              case _ => parseFailures := parseFailures + 1;
            }
          }
        case ThreadClosed =>
          if m.threadId.Some? {
            var thread := m.threadId.value;
            liveThreads := liveThreads - {thread};
            busyThreads := busyThreads - {thread};
            active := set key | key in active && key.0 != thread;
          }
        case OtherNotice(_) =>
        case _ => TurnEnded(m);
      }
    }

    method TurnEnded(m: ServerMessage)
      requires m.name.Some? && IsTurnEnd(m.name.value)
      modifies this
      ensures View() == Notify(old(View()), m)
      ensures taken == old(taken) && history == old(history)
    {
      if m.threadId.Some? && m.turnId.Some? {
        var key := (m.threadId.value, m.turnId.value);
        active := active - {key};
        busyThreads := busyThreads - {key.0};
        if |terminal| < MAX_TERMINAL {
          terminal := terminal + {key};
        } else {
          parseFailures := parseFailures + 1;
        }
      } else {
        parseFailures := parseFailures + 1;
        activeTurns := Decrement(activeTurns);
      }
    }

    method FinishRequest(request: PendingRequest, m: ServerMessage)
      modifies this
      ensures View() == Finish(old(View()), request, m)
      ensures taken == old(taken) && history == old(history)
    {
      match request {
        case StartTurn(thread) =>
          if thread.None? {
            if m.failed {
              activeTurns := Decrement(activeTurns);
            }
          } else if !m.failed {
            if m.reply.turnId.Some? {
              var key := (thread.value, m.reply.turnId.value);
              if key !in terminal && m.reply.turnInProgress {
                active := active + {key};
              }
            } else {
              parseFailures := parseFailures + 1;
            }
          }
        case OpenThread(fallback) =>
          var thread := OpenedThread(fallback, m.reply);
          if !m.failed && thread.Some? {
            liveThreads := liveThreads + {thread.value};
            if m.reply.threadActive {
              busyThreads := busyThreads + {thread.value};
            }
            RecordTurns(thread.value, m.reply.turns);
          }
        case RemoveThread(thread, archive) =>
          if !m.failed {
            var removed := thread in liveThreads;
            liveThreads := liveThreads - {thread};
            if archive && removed && liveThreads == {} {
              archiveEmptyEpoch := archiveEmptyEpoch + 1;
            }
          }
        case Unsubscribe =>
          if !m.failed && m.reply.unsubscribed {
            unsubscribeCompleted := unsubscribeCompleted + 1;
          } else {
            unsubscribeFailed := unsubscribeFailed + 1;
          }
        case Busy =>
      }
    }

    method RecordTurns(thread: string, turns: seq<Turn>)
      modifies this`active
      ensures active == old(active) + (TurnsInProgress(thread, turns) - terminal)
    {
      for i := 0 to |turns|
        invariant active == old(active) + (TurnsInProgress(thread, turns[..i]) - terminal)
      {
        var turn := turns[i];
        assert turns[..i + 1] == turns[..i] + [turn];
        if turn.inProgress && turn.id.Some? {
          var key := (thread, turn.id.value);
          assert TurnsInProgress(thread, turns[..i + 1]) == TurnsInProgress(thread, turns[..i]) + {key};
          if key !in terminal {
            active := active + {key};
          }
        } else {
          assert TurnsInProgress(thread, turns[..i + 1]) == TurnsInProgress(thread, turns[..i]);
        }
      }
      assert turns[..|turns|] == turns;
    }

    method TakeResumeAttempts() returns (attempts: seq<ResumeAttempt>)
      requires Valid()
      modifies this`resumeAttempts, this`taken
      ensures Valid() && attempts == old(resumeAttempts) && resumeAttempts == []
      ensures taken == old(taken) + attempts
    {
      attempts := resumeAttempts;
      taken := taken + attempts;
      resumeAttempts := [];
      assert taken + [] == taken;
    }

    /** The snapshot the drain controller sees is the one the history declares. */
    method TakeSnapshot() returns (s: Snapshot)
      requires Valid()
      ensures s == SnapshotOf(At(history, |history|))
    {
      ghost var o := View();
      var lone := set t | t in busyThreads && !exists key | key in active :: key.0 == t;
      var working := set id | id in pending && Working(pending[id]);
      assert lone == BusyWithoutTurn(o);
      assert working == WorkingIds(o);
      s := Snapshot(activeTurns + |active| + |lone| + |working|, parseFailures == 0,
                    clientActivityGeneration, |liveThreads|, archiveEmptyEpoch,
                    unsubscribeCompleted, unsubscribeFailed);
    }

    /** The loaded threads that are neither busy nor running a turn. */
    method IdleThreadSet() returns (ids: set<string>)
      ensures ids == IdleThreads(View())
    {
      ids := set t | t in liveThreads && t !in busyThreads && !exists key | key in active :: key.0 == t;
      assert ids == IdleThreads(View());
    }
  }
}

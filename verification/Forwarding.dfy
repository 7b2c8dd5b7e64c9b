/**
  Forwarding the client's bytes: each chunk is observed, the resumes it
  completes are prepared, and only then is it written to the server.
 */
module Forwarding {
  import opened Common
  import opened Bytes
  import opened Protocol
  import opened History
  import opened Observer
  import opened Picks
  import L = Limits
  import W = Wire

  datatype Effect = Prepare(attempt: ResumeAttempt) | Write(bytes: seq<byte>)

  function Written(log: seq<Effect>): seq<byte> {
    if log == [] then []
    else (if log[0].Write? then log[0].bytes else []) + Written(log[1..])
  }

  function Prepared(log: seq<Effect>): seq<ResumeAttempt> {
    if log == [] then []
    else (if log[0].Prepare? then [log[0].attempt] else []) + Prepared(log[1..])
  }

  function Prepares(attempts: seq<ResumeAttempt>): seq<Effect> {
    if attempts == [] then [] else [Prepare(attempts[0])] + Prepares(attempts[1..])
  }

  /** The resumes among some events, in order. */
  function ResumesIn(events: seq<Event>): seq<ResumeAttempt> {
    if events == [] then []
    else (if events[0].FromClient? then ResumeOf(events[0].client) else []) + ResumesIn(events[1..])
  }

  /** This line asks to resume a thread that it names. */
  predicate AsksResume(parser: Parser, line: seq<byte>) {
    && !Blank(line) && parser.client(line).Some?
    && var m := parser.client(line).value;
       m.name == Some(ThreadResume) && m.params.Some? && m.params.value.threadId.Some?
  }

  function ResumeAt(parser: Parser, lines: seq<seq<byte>>): nat -> bool {
    (i: nat) => i < |lines| && AsksResume(parser, lines[i])
  }

  /** The thread it names, and its parameters. */
  function AttemptAt(parser: Parser, lines: seq<seq<byte>>): nat -> ResumeAttempt {
    (i: nat) =>
      if ResumeAt(parser, lines)(i) then
        var params := parser.client(lines[i]).value.params.value;
        ResumeAttempt(params.threadId.value, params)
      else ResumeAttempt("", ClientParams(None, ""))
  }

  /** The resumes that decoder output completes, and those a whole client stream holds. */
  function ResumesFed(parser: Parser, f: W.Fed): seq<ResumeAttempt> {
    Picked(|f.messages|, ResumeAt(parser, f.messages), AttemptAt(parser, f.messages))
  }

  function Resumes(parser: Parser, stream: seq<byte>): seq<ResumeAttempt> {
    ResumesFed(parser, W.Feed(W.FRESH, stream))
  }

  function ChunkLog(parser: Parser, s: W.State, chunk: seq<byte>): seq<Effect> {
    Prepares(ResumesFed(parser, W.Feed(s, chunk))) + [Write(chunk)]
  }

  function ForwardLog(parser: Parser, s: W.State, chunks: seq<seq<byte>>): seq<Effect>
    decreases |chunks|
  {
    if chunks == [] then []
    else ChunkLog(parser, s, chunks[0]) + ForwardLog(parser, W.Feed(s, chunks[0]).state, chunks[1..])
  }

  // ---------------------------------------------------------------- the forwarding loop

  class Channel {
    var log: seq<Effect>

    constructor ()
      ensures log == []
    {
      log := [];
    }

    method ForwardClientChunk(observer: ProtocolObserver, bytes: seq<byte>)
      requires observer.Valid() && observer.resumeAttempts == []
      modifies this, observer, observer.clientWire
      ensures observer.Valid() && observer.resumeAttempts == []
      ensures observer.clientWire.View() == W.Feed(old(observer.clientWire.View()), bytes).state
      ensures log == old(log) + ChunkLog(observer.parser, old(observer.clientWire.View()), bytes)
    {
      ghost var was := observer.history;
      TakenAreResumes(observer);
      ghost var f := W.Feed(observer.clientWire.View(), bytes);
      var forwarded := observer.Observe(ClientToServer, bytes);
      QueuedResumes(observer, was, f);
      var attempts := observer.TakeResumeAttempts();
      PrepareAll(attempts);
      log := log + [Write(forwarded)];
    }

    method PrepareAll(attempts: seq<ResumeAttempt>)
      modifies this
      ensures log == old(log) + Prepares(attempts)
    {
      for i := 0 to |attempts|
        invariant old(log) + Prepares(attempts) == log + Prepares(attempts[i..])
      {
        assert attempts[i..][1..] == attempts[i + 1..];
        log := log + [Prepare(attempts[i])];
      }
    }

    /** Reads chunk after chunk until the client closes its end. */
    method CopyClientObserved(observer: ProtocolObserver, reader: seq<seq<byte>>)
      requires observer.Valid() && observer.resumeAttempts == []
      modifies this, observer, observer.clientWire
      ensures observer.Valid()
      ensures log == old(log) + ForwardLog(observer.parser, old(observer.clientWire.View()), reader)
    {
      ghost var all := log + ForwardLog(observer.parser, observer.clientWire.View(), reader);
      for i := 0 to |reader|
        invariant observer.Valid() && observer.resumeAttempts == []
        invariant all == log + ForwardLog(observer.parser, observer.clientWire.View(), reader[i..])
      {
        NextChunk(observer.parser, observer.clientWire.View(), reader, i, log);
        ForwardClientChunk(observer, reader[i]);
      }
    }
  }

  lemma NextChunk(parser: Parser, s: W.State, reader: seq<seq<byte>>, i: nat, before: seq<Effect>)
    requires i < |reader|
    ensures before + ForwardLog(parser, s, reader[i..])
         == before + ChunkLog(parser, s, reader[i]) + ForwardLog(parser, W.Feed(s, reader[i]).state, reader[i + 1..])
  {
    assert reader[i..][0] == reader[i] && reader[i..][1..] == reader[i + 1..];
  }

  lemma {:induction false} ResumesAppend(left: seq<Event>, right: seq<Event>)
    ensures ResumesIn(left + right) == ResumesIn(left) + ResumesIn(right)
  {
    if left == [] {
      assert left + right == right;
    } else {
      TailOfSum(left, right);
      ResumesAppend(left[1..], right);
    }
  }

  lemma {:induction false} ResumesObserved(h: seq<Event>, n: nat)
    requires n <= |h|
    ensures At(h, n).resumes == ResumesIn(h[..n])
    decreases n
  {
    if n > 0 {
      ResumesObserved(h, n - 1);
      OneResumeMore(h, n - 1);
      StepQueues(At(h, n - 1), h[n - 1]);
    }
  }

  lemma OneResumeMore(h: seq<Event>, n: nat)
    requires n < |h|
    ensures ResumesIn(h[..n + 1]) == ResumesIn(h[..n]) + ResumesIn([h[n]])
  {
    assert h[..n + 1] == h[..n] + [h[n]];
    ResumesAppend(h[..n], [h[n]]);
  }

  lemma StepQueues(o: Observation, e: Event)
    ensures Step(o, e).resumes == o.resumes + ResumesIn([e])
  {
    ServerQueuesNone(o, e);
    assert [e][1..] == [];
  }

  lemma ServerQueuesNone(o: Observation, e: Event)
    ensures Step(o, e).resumes == o.resumes + if e.FromClient? then ResumeOf(e.client) else []
  {
    if e.FromServer? {
      var a := Answer(o, e.server);
      assert a.resumes == o.resumes;
      assert Notify(a, e.server).resumes == a.resumes;
    }
  }

  function ResumesSoFar(parser: Parser, lines: seq<seq<byte>>): nat -> seq<ResumeAttempt> {
    (n: nat) => if n <= |lines| then ResumesIn(parser.EventsOf(ClientToServer, lines[..n])) else []
  }

  lemma OneResume(parser: Parser, lines: seq<seq<byte>>, i: nat)
    requires i < |lines|
    ensures ResumesIn(parser.EventOf(ClientToServer, lines[i]))
         == if ResumeAt(parser, lines)(i) then [AttemptAt(parser, lines)(i)] else []
  {
    OneMeaning(parser, ClientToServer, lines, i);
    var e := parser.EventOf(ClientToServer, lines[i]);
    assert e != [] ==> e[1..] == [];
  }

  lemma ResumeGains(parser: Parser, lines: seq<seq<byte>>, i: nat)
    requires i < |lines|
    ensures Gains(ResumesSoFar(parser, lines), ResumeAt(parser, lines), AttemptAt(parser, lines), i)
  {
    assert lines[..i + 1] == lines[..i] + [lines[i]];
    EventsAppend(parser, ClientToServer, lines[..i], [lines[i]]);
    OneLine(parser, ClientToServer, lines[i]);
    ResumesAppend(parser.EventsOf(ClientToServer, lines[..i]), parser.EventOf(ClientToServer, lines[i]));
    OneResume(parser, lines, i);
  }

  /** The resumes the observer queues are those the lines ask for, in order. */
  lemma LinesAreResumes(parser: Parser, f: W.Fed)
    ensures ResumesIn(parser.EventsOf(ClientToServer, f.messages)) == ResumesFed(parser, f)
  {
    var lines := f.messages;
    forall i: nat | i < |lines| {
      ResumeGains(parser, lines, i);
    }
    Gathered(|lines|, ResumesSoFar(parser, lines), ResumeAt(parser, lines), AttemptAt(parser, lines));
    assert lines[..|lines|] == lines;
  }

  lemma FedResumes(parser: Parser, f: W.Fed)
    ensures ResumesIn(parser.FedEvents(ClientToServer, f.messages, f.failures)) == ResumesFed(parser, f)
  {
    LinesAreResumes(parser, f);
    var fed := parser.EventsOf(ClientToServer, f.messages);
    var counted: seq<Event> := if f.failures > 0 then [Unreadable(f.failures)] else [];
    ResumesAppend(counted, fed);
    assert ResumesIn(counted) == [];
  }

  lemma SamePrefix<T>(p: seq<T>, a: seq<T>, b: seq<T>)
    requires p + a == p + b
    ensures a == b
  {
    assert (p + a)[|p|..] == a;
    assert (p + b)[|p|..] == b;
  }

  lemma QueueIsResumes(h: seq<Event>, taken: seq<ResumeAttempt>, queue: seq<ResumeAttempt>)
    requires At(h, |h|).resumes == taken + queue
    ensures ResumesIn(h) == taken + queue
  {
    ResumesObserved(h, |h|);
    assert h[..|h|] == h;
  }

  /** What the queue holds after one call is what that call completed. */
  lemma QueuedResumes(observer: ProtocolObserver, was: seq<Event>, f: W.Fed)
    requires observer.Valid()
    requires observer.taken == ResumesIn(was)
    requires observer.history == was + observer.parser.FedEvents(ClientToServer, f.messages, f.failures)
    ensures observer.resumeAttempts == ResumesFed(observer.parser, f)
  {
    QueueIsResumes(observer.history, observer.taken, observer.resumeAttempts);
    ResumesAppend(was, observer.parser.FedEvents(ClientToServer, f.messages, f.failures));
    FedResumes(observer.parser, f);
    SamePrefix(ResumesIn(was), observer.resumeAttempts, ResumesFed(observer.parser, f));
  }

  lemma TakenAreResumes(observer: ProtocolObserver)
    requires observer.Valid() && observer.resumeAttempts == []
    ensures observer.taken == ResumesIn(observer.history)
  {
    QueueIsResumes(observer.history, observer.taken, []);
  }

  // ---------------------------------------------------------------- what the server can hold

  lemma {:induction false} WrittenAppend(left: seq<Effect>, right: seq<Effect>)
    ensures Written(left + right) == Written(left) + Written(right)
  {
    if left == [] {
      assert left + right == right;
    } else {
      TailOfSum(left, right);
      WrittenAppend(left[1..], right);
      AppendThree(if left[0].Write? then left[0].bytes else [], Written(left[1..]), Written(right));
    }
  }

  lemma {:induction false} PreparedAppend(left: seq<Effect>, right: seq<Effect>)
    ensures Prepared(left + right) == Prepared(left) + Prepared(right)
  {
    if left == [] {
      assert left + right == right;
    } else {
      TailOfSum(left, right);
      PreparedAppend(left[1..], right);
      AppendThree(if left[0].Prepare? then [left[0].attempt] else [], Prepared(left[1..]), Prepared(right));
    }
  }

  lemma LogAppend(left: seq<Effect>, right: seq<Effect>)
    ensures Written(left + right) == Written(left) + Written(right)
    ensures Prepared(left + right) == Prepared(left) + Prepared(right)
  {
    WrittenAppend(left, right);
    PreparedAppend(left, right);
  }

  lemma {:induction false} PreparesPart(attempts: seq<ResumeAttempt>, k: nat)
    requires k <= |attempts|
    ensures |Prepares(attempts)| == |attempts|
    ensures Written(Prepares(attempts)[..k]) == [] && Prepared(Prepares(attempts)[..k]) == attempts[..k]
    decreases |attempts|
  {
    if attempts != [] {
      var p := Prepares(attempts);
      if k == 0 {
        PreparesPart(attempts[1..], 0);
      } else {
        PreparesPart(attempts[1..], k - 1);
        assert p[..k][1..] == Prepares(attempts[1..])[..k - 1];
        assert attempts[..k] == [attempts[0]] + attempts[1..][..k - 1];
      }
    }
  }

  lemma ChunkLogPart(parser: Parser, s: W.State, chunk: seq<byte>, k: nat)
    requires k <= |ChunkLog(parser, s, chunk)|
    ensures var r, part := ResumesFed(parser, W.Feed(s, chunk)), ChunkLog(parser, s, chunk)[..k];
            && |ChunkLog(parser, s, chunk)| == |r| + 1
            && Written(part) == (if k <= |r| then [] else chunk)
            && Prepared(part) == (if k <= |r| then r[..k] else r)
  {
    var r := ResumesFed(parser, W.Feed(s, chunk));
    var all := ChunkLog(parser, s, chunk);
    PreparesPart(r, Min(k, |r|));
    if k <= |r| {
      assert all[..k] == Prepares(r)[..k];
    } else {
      assert all[..k] == Prepares(r)[..|r|] + [Write(chunk)];
      LogAppend(Prepares(r)[..|r|], [Write(chunk)]);
      assert [Write(chunk)][1..] == [];
      assert r[..|r|] == r;
    }
  }

  /** Whatever the stream, the bytes written are the bytes read. */
  lemma {:induction false} ForwardingIsTransparent(parser: Parser, s: W.State, chunks: seq<seq<byte>>)
    ensures Written(ForwardLog(parser, s, chunks)) == Flatten(chunks)
    decreases |chunks|
  {
    if chunks != [] {
      var first := ChunkLog(parser, s, chunks[0]);
      var next := W.Feed(s, chunks[0]).state;
      ForwardingIsTransparent(parser, next, chunks[1..]);
      LogAppend(first, ForwardLog(parser, next, chunks[1..]));
      ChunkLogPart(parser, s, chunks[0], |first|);
      assert first[..|first|] == first;
    }
  }

  /** The resumes of a longer stream are those of its prefix and those the rest completes. */
  lemma ResumesSplit(parser: Parser, done: seq<byte>, more: seq<byte>)
    requires !W.Feed(W.FRESH, done).cleared
    ensures Resumes(parser, done + more)
         == Resumes(parser, done) + ResumesFed(parser, W.Feed(W.Feed(W.FRESH, done).state, more))
  {
    W.UnclearedIsInvisible(W.FRESH, done, more);
    var first := W.Feed(W.FRESH, done);
    var second := W.Feed(first.state, more);
    EventsAppend(parser, ClientToServer, first.messages, second.messages);
    ResumesAppend(parser.EventsOf(ClientToServer, first.messages), parser.EventsOf(ClientToServer, second.messages));
    LinesAreResumes(parser, first);
    LinesAreResumes(parser, second);
    LinesAreResumes(parser, W.Feed(W.FRESH, done + more));
  }

  /** The same log described from the stream: each chunk prepares what the stream holds with it but not without it. */
  function StreamLog(resumes: seq<byte> -> seq<ResumeAttempt>, done: seq<byte>, chunks: seq<seq<byte>>): seq<Effect>
    decreases |chunks|
  {
    if chunks == [] then []
    else
      var with, without := resumes(done + chunks[0]), resumes(done);
      Prepares(with[Min(|without|, |with|)..]) + [Write(chunks[0])]
      + StreamLog(resumes, done + chunks[0], chunks[1..])
  }

  function ResumesOf(parser: Parser): seq<byte> -> seq<ResumeAttempt> {
    (stream: seq<byte>) => Resumes(parser, stream)
  }

  lemma ChunkLogIsStreamLog(parser: Parser, done: seq<byte>, chunk: seq<byte>)
    requires !W.Feed(W.FRESH, done).cleared
    ensures var with, without := Resumes(parser, done + chunk), Resumes(parser, done);
            && without <= with
            && ChunkLog(parser, W.Feed(W.FRESH, done).state, chunk) == Prepares(with[|without|..]) + [Write(chunk)]
    ensures W.Feed(W.FRESH, done + chunk).state == W.Feed(W.Feed(W.FRESH, done).state, chunk).state
  {
    ResumesSplit(parser, done, chunk);
    var r := ResumesFed(parser, W.Feed(W.Feed(W.FRESH, done).state, chunk));
    assert (Resumes(parser, done) + r)[|Resumes(parser, done)|..] == r;
    W.UnclearedIsInvisible(W.FRESH, done, chunk);
  }

  lemma {:induction false} ForwardLogIsStreamLog(parser: Parser, done: seq<byte>, chunks: seq<seq<byte>>)
    requires W.Calm(W.FRESH, done + Flatten(chunks))
    ensures ForwardLog(parser, W.Feed(W.FRESH, done).state, chunks) == StreamLog(ResumesOf(parser), done, chunks)
    decreases |chunks|
  {
    if chunks != [] {
      var total := done + Flatten(chunks);
      assert total[..|done|] == done;
      assert done + chunks[0] + Flatten(chunks[1..]) == total;
      ChunkLogIsStreamLog(parser, done, chunks[0]);
      ForwardLogIsStreamLog(parser, done + chunks[0], chunks[1..]);
    }
  }

  /** A longer part of a calm stream holds the resumes of a shorter one, and possibly more. */
  ghost predicate Monotone(resumes: seq<byte> -> seq<ResumeAttempt>, total: seq<byte>) {
    forall i, j | 0 <= i <= j <= |total| :: resumes(total[..i]) <= resumes(total[..j])
  }

  lemma CalmIsMonotone(parser: Parser, total: seq<byte>)
    requires W.Calm(W.FRESH, total)
    ensures Monotone(ResumesOf(parser), total)
  {
    forall i, j | 0 <= i <= j <= |total|
      ensures ResumesOf(parser)(total[..i]) <= ResumesOf(parser)(total[..j])
    {
      PartHoldsLess(parser, total, i, j);
    }
  }

  lemma PartHoldsLess(parser: Parser, total: seq<byte>, i: nat, j: nat)
    requires i <= j <= |total| && !W.Feed(W.FRESH, total[..i]).cleared
    ensures ResumesOf(parser)(total[..i]) <= ResumesOf(parser)(total[..j])
  {
    PartsOfPrefix(total, i, j);
    LongerHoldsMore(parser, total[..i], total[i..j]);
  }

  lemma PartsOfPrefix(total: seq<byte>, i: nat, j: nat)
    requires i <= j <= |total|
    ensures total[..j] == total[..i] + total[i..j]
  {
  }

  lemma LongerHoldsMore(parser: Parser, done: seq<byte>, more: seq<byte>)
    requires !W.Feed(W.FRESH, done).cleared
    ensures ResumesOf(parser)(done) <= ResumesOf(parser)(done + more)
  {
    ChunkLogIsStreamLog(parser, done, more);
  }

  /** At a moment in the log: all resumes the server can have read are prepared, and no more than the client sent. */
  ghost predicate Safe(
    resumes: seq<byte> -> seq<ResumeAttempt>, done: seq<byte>, total: seq<byte>, log: seq<Effect>, k: nat)
    requires k <= |log|
  {
    var sofar := resumes(done) + Prepared(log[..k]);
    && resumes(done + Written(log[..k])) <= sofar <= resumes(total)
    && (k < |log| && log[k].Write? ==> sofar == resumes(done + Written(log[..k]) + log[k].bytes))
  }

  lemma SafeInChunk(
    resumes: seq<byte> -> seq<ResumeAttempt>, done: seq<byte>, chunk: seq<byte>, r: seq<ResumeAttempt>,
    total: seq<byte>, rest: seq<Effect>, k: nat)
    requires resumes(done + chunk) == resumes(done) + r && resumes(done + chunk) <= resumes(total)
    requires k <= |r|
    ensures |Prepares(r)| == |r|
    ensures Safe(resumes, done, total, Prepares(r) + [Write(chunk)] + rest, k)
  {
    var log := Prepares(r) + [Write(chunk)] + rest;
    PreparesPart(r, k);
    assert log[..k] == Prepares(r)[..k];
    assert done + [] == done;
    assert resumes(done) + r[..k] <= resumes(done) + r;
    if k < |r| {
      PrepareAt(r, k);
      assert log[k] == Prepares(r)[k];
    } else {
      assert r[..k] == r && log[k] == Write(chunk);
    }
  }

  lemma {:induction false} PrepareAt(attempts: seq<ResumeAttempt>, k: nat)
    requires k < |attempts|
    ensures |Prepares(attempts)| == |attempts| && Prepares(attempts)[k] == Prepare(attempts[k])
    decreases |attempts|
  {
    PreparesPart(attempts, 0);
    if k > 0 {
      PrepareAt(attempts[1..], k - 1);
    }
  }

  lemma {:induction false} LogBehindChunk(chunk: seq<byte>, r: seq<ResumeAttempt>, rest: seq<Effect>, k: nat)
    requires k <= |rest|
    ensures |Prepares(r)| == |r|
    ensures var log := Prepares(r) + [Write(chunk)] + rest;
            && Written(log[..|r| + 1 + k]) == chunk + Written(rest[..k])
            && Prepared(log[..|r| + 1 + k]) == r + Prepared(rest[..k])
  {
    var log := Prepares(r) + [Write(chunk)] + rest;
    PreparesPart(r, |r|);
    assert Prepares(r)[..|r|] == Prepares(r) && r[..|r|] == r;
    assert log[..|r| + 1 + k] == Prepares(r) + ([Write(chunk)] + rest[..k]);
    LogAppend(Prepares(r), [Write(chunk)] + rest[..k]);
    LogAppend([Write(chunk)], rest[..k]);
    assert [Write(chunk)][1..] == [];
  }

  lemma SafeAfterChunk(
    resumes: seq<byte> -> seq<ResumeAttempt>, done: seq<byte>, chunk: seq<byte>, r: seq<ResumeAttempt>,
    total: seq<byte>, rest: seq<Effect>, k: nat)
    requires resumes(done + chunk) == resumes(done) + r
    requires k <= |rest| && Safe(resumes, done + chunk, total, rest, k)
    ensures |Prepares(r)| == |r|
    ensures Safe(resumes, done, total, Prepares(r) + [Write(chunk)] + rest, |r| + 1 + k)
  {
    var log := Prepares(r) + [Write(chunk)] + rest;
    LogBehindChunk(chunk, r, rest, k);
    var w, p := Written(rest[..k]), Prepared(rest[..k]);
    AppendThree(done, chunk, w);
    AppendThree(resumes(done), r, p);
    assert k < |rest| ==> log[|r| + 1 + k] == rest[k];
  }

  lemma {:induction false} SafeThroughout(
    resumes: seq<byte> -> seq<ResumeAttempt>, done: seq<byte>, chunks: seq<seq<byte>>, total: seq<byte>, k: nat)
    requires total == done + Flatten(chunks) && Monotone(resumes, total)
    requires k <= |StreamLog(resumes, done, chunks)|
    ensures Safe(resumes, done, total, StreamLog(resumes, done, chunks), k)
    decreases |chunks|
  {
    if chunks == [] {
      assert done + [] == done;
      assert resumes(done) + [] == resumes(done);
    } else {
      var chunk, later := chunks[0], Flatten(chunks[1..]);
      assert done + chunk + later == total;
      assert total[..|done|] == done && total[..|done + chunk|] == done + chunk && total[..|total|] == total;
      var r := resumes(done + chunk)[|resumes(done)|..];
      var rest := StreamLog(resumes, done + chunk, chunks[1..]);
      assert StreamLog(resumes, done, chunks) == Prepares(r) + [Write(chunk)] + rest;
      PreparesPart(r, 0);
      if k <= |r| {
        SafeInChunk(resumes, done, chunk, r, total, rest, k);
      } else {
        SafeThroughout(resumes, done + chunk, chunks[1..], total, k - |r| - 1);
        SafeAfterChunk(resumes, done, chunk, r, total, rest, k - |r| - 1);
      }
    }
  }

  /**
    On a stream within the decoder's limits, at every moment of every run, the
    complete resumes among the bytes written
    have been prepared, in order, and nothing the client did not ask for has; a
    chunk is written only after the resumes it completes; and in the end each
    resume of the stream has been prepared exactly once.
   */
  lemma PreparedBeforeWritten(parser: Parser, chunks: seq<seq<byte>>, k: nat)
    requires L.WithinLimits(Flatten(chunks))
    requires k <= |ForwardLog(parser, W.FRESH, chunks)|
    ensures var log, total := ForwardLog(parser, W.FRESH, chunks), Flatten(chunks);
            && Resumes(parser, Written(log[..k])) <= Prepared(log[..k]) <= Resumes(parser, total)
            && (k < |log| && log[k].Write? ==>
                  Prepared(log[..k]) == Resumes(parser, Written(log[..k]) + log[k].bytes))
            && (k == |log| ==> Prepared(log[..k]) == Resumes(parser, total))
  {
    var total, log := Flatten(chunks), ForwardLog(parser, W.FRESH, chunks);
    assert [] + total == total;
    L.FreshCalmIff(total);
    NothingResumed(parser);
    ForwardLogIsStreamLog(parser, [], chunks);
    CalmIsMonotone(parser, total);
    SafeThroughout(ResumesOf(parser), [], chunks, total, k);
    SafeFromNothing(ResumesOf(parser), total, log, k);
    if k == |log| {
      ForwardingIsTransparent(parser, W.FRESH, chunks);
      assert log[..k] == log;
    }
  }

  lemma SafeFromNothing(
    resumes: seq<byte> -> seq<ResumeAttempt>, total: seq<byte>, log: seq<Effect>, k: nat)
    requires k <= |log| && resumes([]) == [] && Safe(resumes, [], total, log, k)
    ensures resumes(Written(log[..k])) <= Prepared(log[..k]) <= resumes(total)
    ensures k < |log| && log[k].Write? ==> Prepared(log[..k]) == resumes(Written(log[..k]) + log[k].bytes)
  {
    assert [] + Written(log[..k]) == Written(log[..k]);
    assert [] + Prepared(log[..k]) == Prepared(log[..k]);
  }

  lemma NothingResumed(parser: Parser)
    ensures W.Feed(W.FRESH, []).state == W.FRESH && Resumes(parser, []) == []
  {
    W.FreshIsSettled();
  }
}

/**
  Unsubscribing idle threads in place: requests are injected into the client's
  byte stream, observed like the client's own and written to the server.
 */
module Injection {
  import opened Common
  import opened Bytes
  import R = ControlReader
  import opened Frames
  import opened Protocol
  import opened History
  import opened IdleTruth
  import opened Observer
  import opened Ordering
  import opened Runs
  import Encoders
  import L = Limits
  import W = Wire

  /** How control requests are numbered and printed. */
  datatype Control = Control(idOf: nat -> RequestId, render: (nat, string) -> seq<byte>)

  /** The text of one request. */
  function RequestText(c: Control, n: nat, thread: string): seq<byte> {
    c.render(n, thread)
  }

  function UnsubscribeRequest(c: Control, n: nat, thread: string): ClientMessage {
    ClientMessage(Some(ThreadUnsubscribe), Some(c.idOf(n)), Some(ClientParams(Some(thread), "")))
  }

  /** Printing the request and reading it back gives the request; its text is not blank. */
  ghost predicate Renders(parser: Parser, c: Control) {
    forall n: nat, thread: string :: ReadsBack(parser, c, n, thread)
  }

  predicate ReadsBack(parser: Parser, c: Control, n: nat, thread: string) {
    parser.EventOf(ClientToServer, RequestText(c, n, thread)) == [FromClient(UnsubscribeRequest(c, n, thread))]
  }

  function FrameOf(payload: seq<byte>): seq<byte> {
    Encoders.MaskedFrame(TEXT, Encoders.CONTROL_MASK, payload)
  }

  /** The requests for the first k threads: as events, as frames written, and as bytes. */
  function InjectedEvents(c: Control, n: nat, ids: seq<string>, k: nat): seq<Event>
    requires k <= |ids|
  {
    if k == 0 then []
    else InjectedEvents(c, n, ids, k - 1) + [FromClient(UnsubscribeRequest(c, n + k - 1, ids[k - 1]))]
  }

  function InjectedFrames(c: Control, n: nat, ids: seq<string>, k: nat): seq<Encoders.Outgoing>
    requires k <= |ids|
  {
    if k == 0 then []
    else
      InjectedFrames(c, n, ids, k - 1)
      + [Encoders.Outgoing(RequestText(c, n + k - 1, ids[k - 1]), Encoders.CONTROL_MASK)]
  }

  function RequestFrames(c: Control, n: nat, ids: seq<string>, k: nat): seq<seq<byte>>
    requires k <= |ids|
  {
    seq(k, i requires 0 <= i < k => FrameOf(RequestText(c, n + i, ids[i])))
  }

  /** What the observer knows of the client: where the decoder of its stream stands, and the history. */
  datatype Book = Book(wire: W.State, history: seq<Event>)

  /** One more frame observed, wherever the decoder stands. */
  function Observing(parser: Parser): (Book, seq<byte>) -> Book {
    (b: Book, frame: seq<byte>) =>
      var f := W.Feed(b.wire, frame);
      Book(f.state, b.history + parser.FedEvents(ClientToServer, f.messages, f.failures))
  }

  function ObservedAll(parser: Parser, b: Book, frames: seq<seq<byte>>): Book {
    StateAfter(Observing(parser), b, frames, |frames|)
  }

  // ---------------------------------------------------------------- where a frame may be injected

  /** The client's stream stands between two frames. A fragmented message may still be open. */
  predicate AtBoundary(s: W.State) {
    s.mode.WebSocketFrames? && s.pending == []
  }

  /** The injected frame is read as its payload and leaves the decoder as it was. */
  predicate TakenWhole(s: W.State, payload: seq<byte>) {
    W.Feed(s, FrameOf(payload)) == W.Fed(s, [payload], 0, false)
  }

  /** A frame injected at a boundary is extracted whole and leaves the decoder as it was. */
  lemma InjectedFrameFed(s: W.State, payload: seq<byte>)
    requires AtBoundary(s) && |payload| <= 65535
    ensures TakenWhole(s, payload)
  {
    var frame := FrameOf(payload);
    assert s.pending + frame == frame;
    Encoders.MaskedFrameParses(TEXT, Encoders.CONTROL_MASK, payload, []);
    assert frame + [] == frame;
    assert frame[|frame|..] == [];
    var d := Drain([], s.fragment);
    assert [payload] + d.messages == [payload];
  }

  const PROBE := Masked(seq(100, _ => 0xff), Encoders.CONTROL_MASK)

  /** Behind its first byte the probe's frame holds only bytes that no frame can begin with, and no line feed. */
  lemma ProbeBytes()
    ensures var f := FrameOf(PROBE);
            && |f| == 106 && LF !in f
            && forall i | 1 <= i < 106 :: f[i] & 0x70 != 0
  {
    var f, ones: seq<byte> := FrameOf(PROBE), seq(100, _ => 0xff);
    MaskInvolution(ones, Encoders.CONTROL_MASK);
    assert Encoders.LengthBytes(100) == [0xe4];
    assert f == [0x81, 0xe4, 0x43, 0x4d, 0x43, 0x31] + ones;
  }

  /** Nothing can begin a frame and be what the probe leaves behind another frame. */
  lemma ProbeInsideFrame(p: seq<byte>, fragment: Fragment)
    requires p != [] && ParseFrame(p).Incomplete?
    ensures var d := Drain(p + FrameOf(PROBE), fragment);
            d.pending != p || d.messages == [] || d.cleared
  {
    var f := FrameOf(PROBE);
    var q := p + f;
    ProbeBytes();
    var r := ParseFrame(q);
    if r.Frame? {
      assert q[..|p|] == p;
      L.FrameEarly(q, |p|);
      var rest := Accept(fragment, r.final, r.opcode, r.payload).fragment;
      DrainRest(q[r.size..], rest);
      SuffixBegins(p, f, Drain(q[r.size..], rest).pending, r.size);
    }
  }

  lemma SuffixBegins(p: seq<byte>, f: seq<byte>, kept: seq<byte>, size: nat)
    requires p != [] && |f| == 106 && (forall i | 1 <= i < 106 :: f[i] & 0x70 != 0)
    requires |p| < size <= |p + f| && ParseFrame(p + f).Frame?
    requires |kept| <= |(p + f)[size..]| && kept == (p + f)[size..][|(p + f)[size..]| - |kept|..]
    ensures kept != p
  {
    var q := p + f;
    assert q[0] == p[0] && q[0] & 0x70 == 0;
    if |kept| == |p| {
      assert kept[0] == q[|q| - |p|] == f[106 - |p|];
    }
  }

  lemma ProbeBehindLine(p: seq<byte>)
    requires W.LineEnd(p) == |p|
    ensures W.SplitLines(p + FrameOf(PROBE)).lines == []
  {
    var f := FrameOf(PROBE);
    var q := p + f;
    ProbeBytes();
    assert q[..|p|] == p;
    L.LineEndEarly(q, |p|);
    forall i | |p| <= i < |q|
      ensures q[i] != LF
    {
      assert q[i] == f[i - |p|];
    }
  }

  lemma ProbeIsNotTaken(s: W.State)
    requires W.Settled(s) && !AtBoundary(s)
    ensures !TakenWhole(s, PROBE)
  {
    var p := s.pending;
    assert p + [] == p;
    match s.mode
    case WebSocketFrames =>
      L.SettledFrames(p, s.fragment);
      ProbeInsideFrame(p, s.fragment);
    case JsonLines =>
      W.LinesRest(p);
      ProbeBehindLine(p);
    case _ =>
  }

  /** Every payload that can be encoded is read as such exactly at a frame boundary; anywhere else some are not. */
  lemma InjectionNeedsBoundary(s: W.State)
    requires W.Settled(s)
    ensures (forall payload | |payload| <= 65535 :: TakenWhole(s, payload)) <==> AtBoundary(s)
  {
    if AtBoundary(s) {
      forall payload | |payload| <= 65535
        ensures TakenWhole(s, payload)
      {
        InjectedFrameFed(s, payload);
      }
    } else {
      ProbeIsNotTaken(s);
      assert |PROBE| <= 65535;
    }
  }

  /** The injected frame is buffered as a part of the client's, and nothing is recorded. */
  predicate Swallowed(s: W.State, payload: seq<byte>) {
    W.Feed(s, FrameOf(payload)) == W.Fed(s.(pending := s.pending + FrameOf(payload)), [], 0, false)
  }

  /**
    A client frame in flight swallows every request that fits into what is still
    to come of it, whatever its text: exactly if the frame stays incomplete and
    the buffer holds both.
   */
  lemma FrameInFlightSwallows(s: W.State, payload: seq<byte>)
    requires s.mode.WebSocketFrames? && ReadHead(s.pending).Head? && |payload| <= 65535
    ensures var h, size := ReadHead(s.pending), |s.pending| + |FrameOf(payload)|;
            Swallowed(s, payload) <==> size < h.start + h.length && size <= MAX_MESSAGE
  {
    BytesInFlight(s, FrameOf(payload));
  }

  lemma BytesInFlight(s: W.State, later: seq<byte>)
    requires s.mode.WebSocketFrames? && ReadHead(s.pending).Head?
    ensures var h, size := ReadHead(s.pending), |s.pending| + |later|;
            W.Feed(s, later) == W.Fed(s.(pending := s.pending + later), [], 0, false) <==>
            size < h.start + h.length && size <= MAX_MESSAGE
  {
    HeadStable(s.pending, later);
    DrainKeepsAll(s.pending + later, s.fragment);
    FedWhole(s, later);
  }

  lemma FedWhole(s: W.State, later: seq<byte>)
    requires s.mode.WebSocketFrames?
    ensures var q := s.pending + later;
            W.Feed(s, later) == W.Fed(s.(pending := q), [], 0, false) <==>
            Drain(q, s.fragment) == Drained(q, s.fragment, [], 0, false) && |q| <= MAX_MESSAGE
  {
  }

  /** Draining changes nothing exactly when the buffer holds one incomplete frame. */
  lemma DrainKeepsAll(q: seq<byte>, fragment: Fragment)
    ensures Drain(q, fragment) == Drained(q, fragment, [], 0, false) <==> ParseFrame(q).Incomplete?
  {
    var r := ParseFrame(q);
    if r.Frame? {
      DrainRest(q[r.size..], Accept(fragment, r.final, r.opcode, r.payload).fragment);
    }
  }

  /** To the server the injected frame is legal (section 5.4 of RFC 6455) exactly when no fragmented message is open. */
  lemma InjectionIsLegalIff(fragment: Fragment, payload: seq<byte>, rest: seq<byte>)
    requires |payload| <= 65535
    ensures R.Legal(FrameOf(payload) + rest, fragment) <==> fragment.None? && R.Legal(rest, fragment)
  {
    var frame := FrameOf(payload);
    Encoders.MaskedFrameParses(TEXT, Encoders.CONTROL_MASK, payload, rest);
    assert (frame + rest)[|frame|..] == rest;
  }

  predicate Recorded(step: (Book, seq<byte>) -> Book, b: Book, frame: seq<byte>, event: Event) {
    step(b, frame) == Book(b.wire, b.history + [event])
  }

  /** This frame, when its turn comes, is recorded as one event and leaves the decoder where it was. */
  predicate OneEach(step: (Book, seq<byte>) -> Book, b: Book, frames: seq<seq<byte>>, events: seq<Event>, i: nat) {
    i < |frames| && i < |events| ==>
      Recorded(step, Book(b.wire, b.history + events[..i]), frames[i], events[i])
  }

  lemma {:induction false} EventsOneByOne(
    step: (Book, seq<byte>) -> Book, b: Book, frames: seq<seq<byte>>, events: seq<Event>, k: nat)
    requires k <= |frames| == |events|
    requires forall i: nat :: OneEach(step, b, frames, events, i)
    ensures StateAfter(step, b, frames, k) == Book(b.wire, b.history + events[..k])
    decreases k
  {
    if k > 0 {
      EventsOneByOne(step, b, frames, events, k - 1);
      assert OneEach(step, b, frames, events, k - 1);
      assert events[..k] == events[..k - 1] + [events[k - 1]];
      assert b.history + events[..k] == b.history + events[..k - 1] + [events[k - 1]];
    } else {
      assert b.history + events[..0] == b.history;
    }
  }

  lemma AllRecorded(step: (Book, seq<byte>) -> Book, b: Book, frames: seq<seq<byte>>, events: seq<Event>)
    requires |frames| == |events| && forall i: nat :: OneEach(step, b, frames, events, i)
    ensures StateAfter(step, b, frames, |frames|) == Book(b.wire, b.history + events)
  {
    EventsOneByOne(step, b, frames, events, |frames|);
    assert events[..|frames|] == events;
  }

  /** The request is recorded as itself whatever came before. */
  ghost predicate TakesRequest(step: (Book, seq<byte>) -> Book, wire: W.State, c: Control, n: nat, thread: string) {
    forall h: seq<Event> ::
      Recorded(step, Book(wire, h), FrameOf(RequestText(c, n, thread)), FromClient(UnsubscribeRequest(c, n, thread)))
  }

  ghost predicate TakesNth(
    step: (Book, seq<byte>) -> Book, wire: W.State, c: Control, n: nat, ids: seq<string>, i: nat)
    requires i < |ids|
  {
    TakesRequest(step, wire, c, n + i, ids[i])
  }

  lemma EachInjected(
    step: (Book, seq<byte>) -> Book, b: Book, c: Control, n: nat, ids: seq<string>, k: nat, i: nat)
    requires i < k <= |ids| && TakesNth(step, b.wire, c, n, ids, i)
    ensures OneEach(step, b, RequestFrames(c, n, ids, k), InjectedEvents(c, n, ids, k), i)
  {
    EventAt(c, n, ids, k, i);
    assert Recorded(step, Book(b.wire, b.history + InjectedEvents(c, n, ids, k)[..i]),
                    FrameOf(RequestText(c, n + i, ids[i])), FromClient(UnsubscribeRequest(c, n + i, ids[i])));
  }

  lemma AllInjected(step: (Book, seq<byte>) -> Book, b: Book, c: Control, n: nat, ids: seq<string>, k: nat)
    requires k <= |ids| && forall i: nat | i < k :: TakesNth(step, b.wire, c, n, ids, i)
    ensures forall i: nat :: OneEach(step, b, RequestFrames(c, n, ids, k), InjectedEvents(c, n, ids, k), i)
  {
    forall i: nat
      ensures OneEach(step, b, RequestFrames(c, n, ids, k), InjectedEvents(c, n, ids, k), i)
    {
      if i < k {
        EachInjected(step, b, c, n, ids, k, i);
      }
    }
  }

  lemma InjectedByStep(step: (Book, seq<byte>) -> Book, b: Book, c: Control, n: nat, ids: seq<string>, k: nat)
    requires k <= |ids| && forall i: nat | i < k :: TakesNth(step, b.wire, c, n, ids, i)
    ensures var frames := RequestFrames(c, n, ids, k);
            StateAfter(step, b, frames, |frames|) == Book(b.wire, b.history + InjectedEvents(c, n, ids, k))
  {
    var frames, events := RequestFrames(c, n, ids, k), InjectedEvents(c, n, ids, k);
    InjectedLength(c, n, ids, k);
    AllInjected(step, b, c, n, ids, k);
    AllRecorded(step, b, frames, events);
  }

  lemma NthTaken(parser: Parser, wire: W.State, c: Control, n: nat, ids: seq<string>, i: nat)
    requires i < |ids| && AtBoundary(wire) && Renders(parser, c) && Fits(c, n + i, ids[i])
    ensures TakesNth(Observing(parser), wire, c, n, ids, i)
  {
    forall h: seq<Event>
      ensures Recorded(Observing(parser), Book(wire, h), FrameOf(RequestText(c, n + i, ids[i])),
                       FromClient(UnsubscribeRequest(c, n + i, ids[i])))
    {
      assert ReadsBack(parser, c, n + i, ids[i]);
      OneInjected(parser, Book(wire, h), c, n + i, ids[i]);
    }
  }

  lemma AllTaken(parser: Parser, wire: W.State, c: Control, n: nat, ids: seq<string>, k: nat)
    requires AtBoundary(wire) && Renders(parser, c) && AllFit(c, n, ids, k)
    ensures forall i: nat | i < k :: TakesNth(Observing(parser), wire, c, n, ids, i)
  {
    forall i: nat | i < k
      ensures TakesNth(Observing(parser), wire, c, n, ids, i)
    {
      NthFits(c, n, ids, k, i);
      NthTaken(parser, wire, c, n, ids, i);
    }
  }

  lemma NthFits(c: Control, n: nat, ids: seq<string>, k: nat, i: nat)
    requires AllFit(c, n, ids, k) && i < k
    ensures Fits(c, n + i, ids[i])
  {
  }

  /** At a boundary the observer records exactly the requests, and the decoder stays where it was. */
  lemma InjectedAtBoundary(parser: Parser, b: Book, c: Control, n: nat, ids: seq<string>, k: nat)
    requires AtBoundary(b.wire) && Renders(parser, c) && AllFit(c, n, ids, k)
    ensures ObservedAll(parser, b, RequestFrames(c, n, ids, k))
         == Book(b.wire, b.history + InjectedEvents(c, n, ids, k))
  {
    AllTaken(parser, b.wire, c, n, ids, k);
    InjectedByStep(Observing(parser), b, c, n, ids, k);
  }

  lemma {:induction false} InjectedLength(c: Control, n: nat, ids: seq<string>, k: nat)
    requires k <= |ids|
    ensures |InjectedEvents(c, n, ids, k)| == k && |InjectedFrames(c, n, ids, k)| == k
    decreases k
  {
    if k > 0 {
      InjectedLength(c, n, ids, k - 1);
    }
  }

  lemma LastFrame(c: Control, n: nat, ids: seq<string>, k: nat)
    requires k < |ids|
    ensures RequestFrames(c, n, ids, k + 1) == RequestFrames(c, n, ids, k) + [FrameOf(RequestText(c, n + k, ids[k]))]
  {
  }

  lemma {:induction false} EventAt(c: Control, n: nat, ids: seq<string>, k: nat, i: nat)
    requires i < k <= |ids|
    ensures |InjectedEvents(c, n, ids, k)| == k
    ensures InjectedEvents(c, n, ids, k)[i] ==
            FromClient(ClientMessage(
              Some(ThreadUnsubscribe), Some(c.idOf(n + i)), Some(ClientParams(Some(ids[i]), ""))))
    ensures InjectedFrames(c, n, ids, k) != [] && |InjectedFrames(c, n, ids, k)| == k
    ensures InjectedFrames(c, n, ids, k)[i].payload == c.render(n + i, ids[i])
    decreases k
  {
    InjectedLength(c, n, ids, k - 1);
    if i < k - 1 {
      EventAt(c, n, ids, k - 1, i);
    }
  }

  lemma OneInjected(parser: Parser, b: Book, c: Control, n: nat, thread: string)
    requires AtBoundary(b.wire) && ReadsBack(parser, c, n, thread) && Fits(c, n, thread)
    ensures Recorded(Observing(parser), b, FrameOf(RequestText(c, n, thread)),
                     FromClient(UnsubscribeRequest(c, n, thread)))
  {
    InjectedFrameFed(b.wire, RequestText(c, n, thread));
    OneEvent(parser, RequestText(c, n, thread));
  }

  predicate Fits(c: Control, n: nat, thread: string) {
    |RequestText(c, n, thread)| <= 65535
  }

  predicate AllFit(c: Control, n: nat, ids: seq<string>, count: nat) {
    count <= |ids| && forall k | 0 <= k < count :: Fits(c, n + k, ids[k])
  }

  /** `sent` requests fit, and either they are all of them or the next one does not fit. */
  predicate StoppedAt(c: Control, n: nat, ids: seq<string>, sent: nat, ok: bool) {
    AllFit(c, n, ids, sent) && if ok then sent == |ids| else sent < |ids| && !Fits(c, n + sent, ids[sent])
  }

  class ProxyInput {
    /** Every frame written, by its payload and key; its bytes are `Bytes()`. */
    var frames: seq<Encoders.Outgoing>

    constructor ()
      ensures frames == []
    {
      frames := [];
    }

    /**
      Every loaded idle thread is unsubscribed once, in sorted order, each
      request observed before it is written; the first request too long to
      encode stops the loop, leaving no trace but its number. The owner does
      not look where the client's stream stands.
     */
    method UnsubscribeIdleThreads(
      observer: ProtocolObserver, nextRequestId: nat, c: Control)
      returns (ok: bool, nextId: nat, ids: seq<string>, ghost sent: nat)
      requires observer.Valid()
      modifies this, observer, observer.clientWire
      ensures observer.Valid()
      ensures Sorted(ids) && Elements(ids) == IdleThreads(At(old(observer.history), |old(observer.history)|))
      ensures StoppedAt(c, nextRequestId, ids, sent, ok)
      ensures nextId == nextRequestId + sent + if ok then 0 else 1
      ensures Progress(observer, c, nextRequestId, ids, sent, old(BookOf(observer)), old(frames))
    {
      var idle := observer.IdleThreadSet();
      ids := Sort(idle);
      ok, nextId, sent := UnsubscribeAll(observer, ids, nextRequestId, c);
    }

    /** The first i of the requests are observed and written, from these starting points. */
    ghost predicate Progress(
      observer: ProtocolObserver, c: Control, n: nat, ids: seq<string>, i: nat,
      b: Book, was: seq<Encoders.Outgoing>)
      reads this, observer, observer.clientWire
    {
      && i <= |ids|
      && BookOf(observer) == ObservedAll(observer.parser, b, RequestFrames(c, n, ids, i))
      && frames == was + InjectedFrames(c, n, ids, i)
    }

    method UnsubscribeAll(
      observer: ProtocolObserver, ids: seq<string>, nextRequestId: nat, c: Control)
      returns (ok: bool, nextId: nat, ghost sent: nat)
      requires observer.Valid()
      modifies this, observer, observer.clientWire
      ensures observer.Valid()
      ensures StoppedAt(c, nextRequestId, ids, sent, ok)
      ensures nextId == nextRequestId + sent + if ok then 0 else 1
      ensures Progress(observer, c, nextRequestId, ids, sent, old(BookOf(observer)), old(frames))
    {
      nextId := nextRequestId;
      ghost var b, was := BookOf(observer), frames;
      for i := 0 to |ids|
        invariant observer.Valid()
        invariant nextId == nextRequestId + i
        invariant AllFit(c, nextRequestId, ids, i)
        invariant Progress(observer, c, nextRequestId, ids, i, b, was)
      {
        var fits := UnsubscribeNext(observer, ids, i, nextRequestId, c, b, was);
        nextId := nextId + 1;
        if !fits {
          return false, nextId, i;
        }
        OneMoreFits(c, nextRequestId, ids, i);
      }
      return true, nextId, |ids|;
    }

    method UnsubscribeNext(
      observer: ProtocolObserver, ids: seq<string>, i: nat, n: nat, c: Control,
      ghost b: Book, ghost was: seq<Encoders.Outgoing>)
      returns (fits: bool)
      requires observer.Valid() && i < |ids|
      requires Progress(observer, c, n, ids, i, b, was)
      modifies this, observer, observer.clientWire
      ensures observer.Valid()
      ensures fits <==> Fits(c, n + i, ids[i])
      ensures fits ==> Progress(observer, c, n, ids, i + 1, b, was)
      ensures !fits ==> Progress(observer, c, n, ids, i, b, was)
    {
      ghost var before := BookOf(observer);
      fits := UnsubscribeOne(observer, RequestText(c, n + i, ids[i]));
      if fits {
        NextObserved(observer.parser, b, c, n, ids, i, before);
        NextWritten(c, n, ids, i, was);
      }
    }

    method UnsubscribeOne(observer: ProtocolObserver, payload: seq<byte>) returns (sent: bool)
      requires observer.Valid()
      modifies this, observer, observer.clientWire
      ensures observer.Valid()
      ensures sent <==> |payload| <= 65535
      ensures BookOf(observer) ==
              if sent then Observing(observer.parser)(old(BookOf(observer)), FrameOf(payload))
              else old(BookOf(observer))
      ensures frames == old(frames) + if sent then [Encoders.Outgoing(payload, Encoders.CONTROL_MASK)] else []
    {
      var frame := Encoders.MaskedWebsocketTextFrame(payload);
      if frame.Err? {
        return false;
      }
      var forwarded := observer.Observe(ClientToServer, frame.value);
      var written := Encoders.Outgoing(payload, Encoders.CONTROL_MASK);
      assert forwarded == written.Bytes();
      frames := frames + [written];
      return true;
    }
  }

  lemma OneMoreFits(c: Control, n: nat, ids: seq<string>, i: nat)
    requires i < |ids| && AllFit(c, n, ids, i) && Fits(c, n + i, ids[i])
    ensures AllFit(c, n, ids, i + 1)
  {
  }

  lemma NextObserved(parser: Parser, b: Book, c: Control, n: nat, ids: seq<string>, i: nat, before: Book)
    requires i < |ids| && before == ObservedAll(parser, b, RequestFrames(c, n, ids, i))
    ensures Observing(parser)(before, FrameOf(RequestText(c, n + i, ids[i])))
         == ObservedAll(parser, b, RequestFrames(c, n, ids, i + 1))
  {
    NextState(Observing(parser), b, c, n, ids, i);
  }

  lemma NextState(step: (Book, seq<byte>) -> Book, b: Book, c: Control, n: nat, ids: seq<string>, i: nat)
    requires i < |ids|
    ensures var frames, longer := RequestFrames(c, n, ids, i), RequestFrames(c, n, ids, i + 1);
            StateAfter(step, b, longer, |longer|) ==
            step(StateAfter(step, b, frames, |frames|), FrameOf(RequestText(c, n + i, ids[i])))
  {
    LastFrame(c, n, ids, i);
    OneMore(step, b, RequestFrames(c, n, ids, i), FrameOf(RequestText(c, n + i, ids[i])));
  }

  lemma NextWritten(c: Control, n: nat, ids: seq<string>, i: nat, was: seq<Encoders.Outgoing>)
    requires i < |ids|
    ensures was + InjectedFrames(c, n, ids, i + 1)
         == was + InjectedFrames(c, n, ids, i)
            + [Encoders.Outgoing(RequestText(c, n + i, ids[i]), Encoders.CONTROL_MASK)]
  {
  }

  ghost function BookOf(observer: ProtocolObserver): Book
    reads observer, observer.clientWire
  {
    Book(observer.clientWire.View(), observer.history)
  }

  lemma OneEvent(parser: Parser, payload: seq<byte>)
    ensures parser.FedEvents(ClientToServer, [payload], 0) == parser.EventOf(ClientToServer, payload)
  {
    assert [payload][1..] == [];
    var e := parser.EventOf(ClientToServer, payload);
    assert parser.EventsOf(ClientToServer, [payload]) == e + [];
    assert [] + e == e;
  }

  // ---------------------------------------------------------------- what injection leaves alone

  /** An injected request changes the pending table and nothing else. */
  lemma InjectedState(o: Observation, c: Control, n: nat, thread: string)
    ensures OnClient(o, UnsubscribeRequest(c, n, thread)) == o.(pending := o.pending[c.idOf(n) := Unsubscribe])
  {
    assert o.resumes + [] == o.resumes;
  }

  /** It is invisible to the count of active work unless its id was in use for such work. */
  lemma InjectionIsInvisible(o: Observation, c: Control, n: nat, thread: string)
    ensures ActiveCount(OnClient(o, UnsubscribeRequest(c, n, thread))) == ActiveCount(o)
       <==> c.idOf(n) !in WorkingIds(o)
  {
    InjectedState(o, c, n, thread);
    var p := OnClient(o, UnsubscribeRequest(c, n, thread));
    assert WorkingIds(p) == WorkingIds(o) - {c.idOf(n)};
    assert BusyWithoutTurn(p) == BusyWithoutTurn(o) by {
      assert forall t :: HasTurn(p, t) == HasTurn(o, t);
    }
  }

  /** All but the pending table is as before, and so is the count of active work. */
  ghost predicate Untouched(o: Observation, p: Observation) {
    p == o.(pending := p.pending) && ActiveCount(p) == ActiveCount(o) && WorkingIds(p) == WorkingIds(o)
  }

  lemma UntouchedByOne(o: Observation, c: Control, n: nat, thread: string)
    requires c.idOf(n) !in WorkingIds(o)
    ensures Untouched(o, OnClient(o, UnsubscribeRequest(c, n, thread)))
  {
    InjectedState(o, c, n, thread);
    InjectionIsInvisible(o, c, n, thread);
    assert WorkingIds(OnClient(o, UnsubscribeRequest(c, n, thread))) == WorkingIds(o) - {c.idOf(n)};
  }

  lemma UntouchedTwice(o: Observation, p: Observation, q: Observation)
    requires Untouched(o, p) && Untouched(p, q)
    ensures Untouched(o, q)
  {
  }

  /** The state after the requests for the first k threads. */
  function Injected(o: Observation, c: Control, n: nat, ids: seq<string>, k: nat): Observation
    requires k <= |ids|
  {
    if k == 0 then o else OnClient(Injected(o, c, n, ids, k - 1), UnsubscribeRequest(c, n + k - 1, ids[k - 1]))
  }

  lemma {:induction false} InjectedUntouched(o: Observation, c: Control, n: nat, ids: seq<string>, k: nat)
    requires k <= |ids| && forall m | n <= m < n + k :: c.idOf(m) !in WorkingIds(o)
    ensures Untouched(o, Injected(o, c, n, ids, k))
    decreases k
  {
    if k > 0 {
      var p := Injected(o, c, n, ids, k - 1);
      InjectedUntouched(o, c, n, ids, k - 1);
      UntouchedByOne(p, c, n + k - 1, ids[k - 1]);
      UntouchedTwice(o, p, OnClient(p, UnsubscribeRequest(c, n + k - 1, ids[k - 1])));
    }
  }

  lemma {:induction false} InjectedHistory(h: seq<Event>, c: Control, n: nat, ids: seq<string>, k: nat)
    requires k <= |ids|
    ensures var g := h + InjectedEvents(c, n, ids, k); At(g, |g|) == Injected(At(h, |h|), c, n, ids, k)
    decreases k
  {
    if k == 0 {
      assert h + [] == h;
    } else {
      var g, e := h + InjectedEvents(c, n, ids, k - 1), FromClient(UnsubscribeRequest(c, n + k - 1, ids[k - 1]));
      InjectedHistory(h, c, n, ids, k - 1);
      NextEvent(h, c, n, ids, k);
      AtAppend(g, e);
    }
  }

  lemma NextEvent(h: seq<Event>, c: Control, n: nat, ids: seq<string>, k: nat)
    requires 0 < k <= |ids|
    ensures h + InjectedEvents(c, n, ids, k)
         == h + InjectedEvents(c, n, ids, k - 1) + [FromClient(UnsubscribeRequest(c, n + k - 1, ids[k - 1]))]
  {
  }

  /** However many requests are injected, only the pending table changes; the count of active work stays. */
  lemma InjectionKeepsState(h: seq<Event>, c: Control, n: nat, ids: seq<string>, k: nat)
    requires k <= |ids| && forall m | n <= m < n + k :: c.idOf(m) !in WorkingIds(At(h, |h|))
    ensures var g := h + InjectedEvents(c, n, ids, k); Untouched(At(h, |h|), At(g, |g|))
  {
    InjectedUntouched(At(h, |h|), c, n, ids, k);
    InjectedHistory(h, c, n, ids, k);
  }

  /** When nothing is active, the idle threads are all the loaded ones. */
  lemma IdleTargetsAllLive(o: Observation)
    requires ActiveCount(o) == 0
    ensures IdleThreads(o) == o.live
  {
    ZeroCount(o);
  }
}

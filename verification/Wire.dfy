/**
  The observer's byte-stream decoder as a function on values: mode detection,
  the HTTP handshake boundary, JSON lines, WebSocket frames and the overflow
  guard. `WireBuffer` in WireBuffer.dfy is the object that updates itself.
 */
module Wire {
  import opened Common
  import opened Bytes
  import opened Frames

  datatype WireMode = Unknown | JsonLines | WebSocketHandshake | WebSocketFrames

  datatype State = State(mode: WireMode, pending: seq<byte>, fragment: Fragment)

  const FRESH := State(Unknown, [], None)

  const GET: seq<byte> := [71, 69, 84, 32]
  const HTTP: seq<byte> := [72, 84, 84, 80, 47]
  const TERMINATOR: seq<byte> := [CR, LF, CR, LF]
  const BRACE: byte := 123
  const BRACKET: byte := 91

  predicate IsSpace(b: byte) {
    b == 32 || b == 9 || b == LF || b == 12 || b == CR
  }

  function SkipSpace(p: seq<byte>): seq<byte> {
    if p != [] && IsSpace(p[0]) then SkipSpace(p[1..]) else p
  }

  /** The mode that the first bytes after white space settle, `Unknown` while they settle none. */
  function Detect(p: seq<byte>): WireMode {
    var start := SkipSpace(p);
    if GET <= start || HTTP <= start then WebSocketHandshake
    else if start != [] && (start[0] == BRACE || start[0] == BRACKET) then JsonLines
    else if |start| >= 5 then JsonLines
    else Unknown
  }

  /** Offset of the first blank line that ends the handshake. */
  function FindTerminator(p: seq<byte>): Option<nat> {
    if |p| < 4 then None
    else if p[..4] == TERMINATOR then Some(0)
    else
      match FindTerminator(p[1..])
      case None => None
      case Some(n) => Some(n + 1)
  }

  function LineEnd(p: seq<byte>): (n: nat)
    ensures n <= |p|
    ensures n < |p| ==> p[n] == LF
  {
    if p == [] || p[0] == LF then 0 else 1 + LineEnd(p[1..])
  }

  datatype Lines = Lines(lines: seq<seq<byte>>, rest: seq<byte>)
  {
    function Behind(earlier: seq<seq<byte>>): Lines {
      Lines(earlier + lines, rest)
    }
  }

  function SplitLines(p: seq<byte>): Lines
    decreases |p|
  {
    var n := LineEnd(p);
    if n == |p| then Lines([], p) else SplitLines(p[n + 1..]).Behind([p[..n]])
  }

  /** What one call returns, and the state it leaves; `cleared` tells that buffered bytes were thrown away. */
  datatype Fed = Fed(state: State, messages: seq<seq<byte>>, failures: nat, cleared: bool)
  {
    function After(messages': seq<seq<byte>>, failures': nat): Fed {
      this.(messages := messages' + messages, failures := failures' + failures)
    }
  }

  function Settle(s: State): State {
    var mode := if s.mode.Unknown? then Detect(s.pending) else s.mode;
    if mode.WebSocketHandshake? && FindTerminator(s.pending).Some? then
      var cut := FindTerminator(s.pending).value + 4;
      State(WebSocketFrames, if cut <= |s.pending| then s.pending[cut..] else [], s.fragment)
    else State(mode, s.pending, s.fragment)
  }

  function Extract(s: State): Fed {
    match s.mode
    case JsonLines =>
      var l := SplitLines(s.pending);
      Fed(s.(pending := l.rest), l.lines, 0, false)
    case WebSocketFrames =>
      var d := Drain(s.pending, s.fragment);
      Fed(s.(pending := d.pending, fragment := d.fragment), d.messages, d.failures, d.cleared)
    case _ => Fed(s, [], 0, false)
  }

  /** The overflow guard. */
  function Guard(f: Fed): Fed {
    if |f.state.pending| > MAX_MESSAGE then
      Fed(f.state.(pending := [], fragment := None), f.messages, f.failures + 1, true)
    else f
  }

  function Feed(s: State, bytes: seq<byte>): Fed {
    Guard(Extract(Settle(s.(pending := s.pending + bytes))))
  }

  /** Feeding a list of chunks, one call each. */
  function FeedAll(s: State, chunks: seq<seq<byte>>): Fed
    decreases |chunks|
  {
    if chunks == [] then Fed(s, [], 0, false)
    else
      var first := Feed(s, chunks[0]);
      var rest := FeedAll(first.state, chunks[1..]).After(first.messages, first.failures);
      rest.(cleared := first.cleared || rest.cleared)
  }

  // ---------------------------------------------------------------- growing the buffer

  lemma {:induction false} SkipSpaceGrows(p: seq<byte>, later: seq<byte>)
    ensures SkipSpace(p) != [] ==> SkipSpace(p + later) == SkipSpace(p) + later
    decreases |p|
  {
    if p != [] {
      assert (p + later)[0] == p[0];
      assert (p + later)[1..] == p[1..] + later;
      if IsSpace(p[0]) {
        SkipSpaceGrows(p[1..], later);
      }
    }
  }

  lemma DetectGrows(p: seq<byte>, later: seq<byte>)
    requires !Detect(p).Unknown?
    ensures Detect(p + later) == Detect(p)
  {
    var start := SkipSpace(p);
    SkipSpaceGrows(p, later);
    assert SkipSpace(p + later) == start + later;
    assert start != [] ==> (start + later)[0] == start[0];
    assert GET[0] == 71 && HTTP[0] == 72;
    if |start| >= 5 {
      assert (start + later)[..5] == start[..5];
      assert (start + later)[..4] == start[..4];
    }
    if GET <= start {
      assert GET <= start + later;
    }
  }

  lemma {:induction false} TerminatorIsThere(p: seq<byte>)
    ensures var t := FindTerminator(p);
            t.Some? ==> t.value + 4 <= |p| && p[t.value..t.value + 4] == TERMINATOR
    decreases |p|
  {
    if |p| >= 4 && p[..4] != TERMINATOR {
      TerminatorIsThere(p[1..]);
      var t := FindTerminator(p[1..]);
      if t.Some? {
        assert p[t.value + 1..t.value + 5] == p[1..][t.value..t.value + 4];
      }
    }
  }

  /** The first terminator found is still the first one when more bytes follow. */
  lemma {:induction false} TerminatorGrows(p: seq<byte>, later: seq<byte>)
    requires FindTerminator(p).Some?
    ensures FindTerminator(p + later) == FindTerminator(p)
    decreases |p|
  {
    assert (p + later)[..4] == p[..4];
    if p[..4] != TERMINATOR {
      assert (p + later)[1..] == p[1..] + later;
      TerminatorGrows(p[1..], later);
    }
  }

  lemma {:induction false} LineEndGrows(p: seq<byte>, later: seq<byte>)
    requires LineEnd(p) < |p|
    ensures LineEnd(p + later) == LineEnd(p)
    decreases |p|
  {
    assert (p + later)[0] == p[0];
    if p[0] != LF {
      assert (p + later)[1..] == p[1..] + later;
      LineEndGrows(p[1..], later);
    }
  }

  lemma LinesUnfold(p: seq<byte>)
    requires LineEnd(p) < |p|
    ensures SplitLines(p) == SplitLines(p[LineEnd(p) + 1..]).Behind([p[..LineEnd(p)]])
  {
  }

  lemma BehindTwice(l: Lines, inner: seq<seq<byte>>, outer: seq<seq<byte>>)
    ensures l.Behind(inner).Behind(outer) == l.Behind(outer + inner)
  {
    AppendThree(outer, inner, l.lines);
  }

  /** Taking one line off adds it to those that came before. */
  lemma FirstLine(all: Lines, tail: Lines, first: seq<byte>, earlier: seq<seq<byte>>)
    requires all == tail.Behind([first])
    ensures all.Behind(earlier) == tail.Behind(earlier + [first])
  {
    BehindTwice(tail, [first], earlier);
  }

  lemma LinesStep(p: seq<byte>, later: seq<byte>)
    requires LineEnd(p) < |p|
    ensures SplitLines(p + later) == SplitLines(p[LineEnd(p) + 1..] + later).Behind([p[..LineEnd(p)]])
  {
    LineEndGrows(p, later);
    CutOfSum(p, later, LineEnd(p));
    LinesUnfold(p + later);
  }

  lemma {:induction false} LinesSplit(p: seq<byte>, later: seq<byte>)
    ensures SplitLines(p + later) == SplitLines(SplitLines(p).rest + later).Behind(SplitLines(p).lines)
    decreases |p|
  {
    var n := LineEnd(p);
    if n == |p| {
      assert [] + SplitLines(p + later).lines == SplitLines(p + later).lines;
    } else {
      LinesStep(p, later);
      LinesSplit(p[n + 1..], later);
      LinesUnfold(p);
      SplitAfter(SplitLines(p + later), SplitLines(p), SplitLines(p[n + 1..]),
                 SplitLines(SplitLines(p[n + 1..]).rest + later), p[..n]);
    }
  }

  lemma SplitAfter(whole: Lines, part: Lines, tail: Lines, rest: Lines, first: seq<byte>)
    requires part == tail.Behind([first]) && whole == rest.Behind(tail.lines).Behind([first])
    ensures whole == rest.Behind(part.lines)
  {
    BehindTwice(rest, tail.lines, [first]);
  }

  lemma {:induction false} EndOfLine(line: seq<byte>, rest: seq<byte>)
    requires LF !in line
    ensures LineEnd(line + [LF] + rest) == |line|
    ensures LineEnd(line) == |line|
    decreases |line|
  {
    var p := line + [LF] + rest;
    if line != [] {
      assert p[0] == line[0];
      assert p[1..] == line[1..] + [LF] + rest;
      EndOfLine(line[1..], rest);
    } else {
      assert p[0] == LF;
    }
  }

  lemma TakeLine(line: seq<byte>, rest: seq<byte>)
    requires LF !in line
    ensures SplitLines(line + [LF] + rest)
         == Lines([line] + SplitLines(rest).lines, SplitLines(rest).rest)
  {
    var p := line + [LF] + rest;
    EndOfLine(line, rest);
    assert p[..|line|] == line;
    assert p[|line| + 1..] == rest;
  }

  lemma {:induction false} LinesRest(p: seq<byte>)
    ensures LineEnd(SplitLines(p).rest) == |SplitLines(p).rest|
    decreases |p|
  {
    if LineEnd(p) < |p| {
      LinesRest(p[LineEnd(p) + 1..]);
    }
  }

  // ---------------------------------------------------------------- chunk independence

  /** More bytes behind a settled mode do not unsettle it. */
  lemma SettleGrows(s: State, later: seq<byte>)
    ensures var t := Settle(s);
            Settle(s.(pending := s.pending + later)) == Settle(t.(pending := t.pending + later))
  {
    var mode := if s.mode.Unknown? then Detect(s.pending) else s.mode;
    if s.mode.Unknown? && !mode.Unknown? {
      DetectGrows(s.pending, later);
    }
    if mode.WebSocketHandshake? && FindTerminator(s.pending).Some? {
      TerminatorIsThere(s.pending);
      TerminatorGrows(s.pending, later);
      var cut := FindTerminator(s.pending).value + 4;
      assert (s.pending + later)[cut..] == s.pending[cut..] + later;
    }
  }

  lemma ExtractSplit(s: State, later: seq<byte>)
    requires s.mode.JsonLines? || s.mode.WebSocketFrames?
    requires !Extract(s).cleared
    ensures var f := Extract(s);
            Extract(s.(pending := s.pending + later)) ==
            Extract(f.state.(pending := f.state.pending + later)).After(f.messages, f.failures)
  {
    if s.mode.JsonLines? {
      LinesSplit(s.pending, later);
    } else {
      DrainSplit(s.pending, later, s.fragment);
    }
  }

  /** The outcome of a first call followed by a second one. */
  function Then(first: Fed, second: Fed): Fed {
    second.After(first.messages, first.failures)
  }

  /** A chunk boundary that leaves no trace for one particular continuation. */
  ghost predicate Invisible(s: State, chunk: seq<byte>, later: seq<byte>) {
    var first := Feed(s, chunk);
    Feed(s, chunk + later) == Then(first, Feed(first.state, later))
  }

  lemma GuardAfter(f: Fed, messages: seq<seq<byte>>, failures: nat)
    ensures Guard(f.After(messages, failures)) == Guard(f).After(messages, failures)
  {
  }

  /** The same from a settled state on. */
  lemma SettledIsInvisible(t: State, later: seq<byte>)
    requires Settle(t) == t && !Guard(Extract(t)).cleared
    ensures var f := Extract(t);
            Guard(Extract(Settle(t.(pending := t.pending + later))))
            == Then(f, Guard(Extract(Settle(f.state.(pending := f.state.pending + later)))))
  {
    var f := Extract(t);
    var u, v := t.(pending := t.pending + later), f.state.(pending := f.state.pending + later);
    if t.mode.JsonLines? || t.mode.WebSocketFrames? {
      assert Settle(u) == u && Settle(v) == v;
      ExtractSplit(t, later);
      GuardAfter(Extract(v), f.messages, f.failures);
    } else {
      EmptyAfter(Guard(Extract(Settle(v))));
    }
  }

  lemma UnclearedIsInvisible(s: State, chunk: seq<byte>, later: seq<byte>)
    requires !Feed(s, chunk).cleared
    ensures Invisible(s, chunk, later)
  {
    var whole := s.(pending := s.pending + chunk);
    SettleGrows(whole, later);
    SettleTwice(whole);
    assert s.pending + (chunk + later) == whole.pending + later;
    SettledIsInvisible(Settle(whole), later);
  }

  lemma EmptyAfter(f: Fed)
    ensures f.After([], 0) == f
  {
    assert [] + f.messages == f.messages;
  }

  // ---------------------------------------------------------------- and where it ends

  /** One more byte completes an incomplete frame only as its last byte. */
  lemma CompletedByLastByte(p: seq<byte>, b: byte)
    requires ParseFrame(p).Incomplete? && ParseFrame(p + [b]).Frame?
    ensures ParseFrame(p + [b]).size == |p| + 1
  {
    var h := ReadHead(p + [b]);
    if !ReadHead(p).Short? {
      HeadStable(p, [b]);
    } else if |p| >= 2 {
      assert (p + [b])[0] == p[0] && (p + [b])[1] == p[1];
    }
  }

  lemma {:induction false} NoLineEndGrows(p: seq<byte>, b: byte)
    requires LineEnd(p) == |p| && b != LF
    ensures LineEnd(p + [b]) == |p| + 1
    decreases |p|
  {
    if p == [] {
      assert LineEnd([b][1..]) == 0;
    } else {
      assert (p + [b])[0] == p[0] && (p + [b])[1..] == p[1..] + [b];
      NoLineEndGrows(p[1..], b);
    }
  }

  lemma {:induction false} NoTerminatorGrows(p: seq<byte>, b: byte)
    requires FindTerminator(p).None? && b != LF
    ensures FindTerminator(p + [b]).None?
    decreases |p|
  {
    var q := p + [b];
    if |q| >= 4 {
      if |p| >= 4 {
        assert q[..4] == p[..4];
      } else {
        assert q[..4][3] == b && TERMINATOR[3] == LF;
      }
      assert q[1..] == p[1..] + [b];
      if |p| < 4 {
        assert |q[1..]| < 4;
      } else {
        NoTerminatorGrows(p[1..], b);
      }
    }
  }

  /** Whatever the mode, a lone zero byte behind a cleared buffer just waits. */
  lemma {:induction false} ZeroWaits(s: State)
    requires s.pending == []
    ensures Feed(s, [0]) == Fed(s.(pending := [0]), [], 0, false)
  {
    assert s.pending + [0] == [0];
    assert SkipSpace([0]) == [0];
    assert Detect([0]).Unknown?;
    assert LineEnd([0]) == 1 by {
      NoLineEndGrows([], 0);
      assert [] + [0] == [0];
    }
  }

  /** An incomplete frame that overflows is not left as that zero byte either. */
  lemma FrameOverflow(p: seq<byte>, fragment: Fragment)
    requires ParseFrame(p).Incomplete? && |p| > MAX_MESSAGE
    ensures var d := Drain(p + [0], fragment); d.pending == [] || |d.pending| > MAX_MESSAGE
  {
    if ParseFrame(p + [0]).Frame? {
      CompletedByLastByte(p, 0);
      assert (p + [0])[ParseFrame(p + [0]).size..] == [];
    }
  }

  /** The buffer cannot be left holding just that zero byte when the two calls were one. */
  lemma OverflowIsVisible(t: State)
    requires !Extract(t).cleared && |Extract(t).state.pending| > MAX_MESSAGE
    requires !t.mode.Unknown? && Settle(t) == t
    ensures Guard(Extract(Settle(t.(pending := t.pending + [0])))).state.pending == []
  {
    var rest := Extract(t).state.pending;
    var u := t.(pending := t.pending + [0]);
    assert Settle(u) == u by {
      if t.mode.WebSocketHandshake? {
        NoTerminatorGrows(t.pending, 0);
      }
    }
    if t.mode.JsonLines? {
      ExtractSplit(t, [0]);
      LinesRest(t.pending);
      NoLineEndGrows(rest, 0);
    } else if t.mode.WebSocketFrames? {
      ExtractSplit(t, [0]);
      DrainRest(t.pending, t.fragment);
      FrameOverflow(rest, Extract(t).state.fragment);
    }
  }

  lemma {:induction false} ClearedIsVisible(s: State, chunk: seq<byte>)
    requires Feed(s, chunk).cleared
    ensures !Invisible(s, chunk, [0])
  {
    var whole := s.(pending := s.pending + chunk);
    var t := Settle(whole);
    var f := Extract(t);
    if t.mode.WebSocketFrames? {
      DrainRest(t.pending, t.fragment);
    }
    ZeroWaits(Feed(s, chunk).state);
    SettleGrows(whole, [0]);
    AppendThree(s.pending, chunk, [0]);
    if f.cleared {
      DrainCleared(t.pending, [0], t.fragment);
    } else if !t.mode.Unknown? {
      SettleTwice(whole);
      OverflowIsVisible(t);
    }
  }

  lemma SettleTwice(s: State)
    ensures Settle(Settle(s)) == Settle(s)
  {
    var t := Settle(s);
    if s.mode.Unknown? && t.mode.Unknown? {
      assert t == s;
    }
  }

  /** No prefix of the stream makes the decoder throw bytes away; Limits.dfy says which streams these are. */
  ghost predicate Calm(s: State, stream: seq<byte>) {
    forall k | 0 <= k <= |stream| :: !Feed(s, stream[..k]).cleared
  }

  lemma CalmTail(s: State, chunk: seq<byte>, later: seq<byte>)
    requires Calm(s, chunk + later)
    ensures !Feed(s, chunk).cleared
    ensures Calm(Feed(s, chunk).state, later)
  {
    assert (chunk + later)[..|chunk|] == chunk;
    forall k | 0 <= k <= |later|
      ensures !Feed(Feed(s, chunk).state, later[..k]).cleared
    {
      assert (chunk + later)[..|chunk| + k] == chunk + later[..k];
      UnclearedIsInvisible(s, chunk, later[..k]);
    }
  }

  /** A state in which nothing is left to extract: the initial one and every one a call leaves. */
  predicate Settled(s: State) {
    Feed(s, []) == Fed(s, [], 0, false)
  }

  lemma FreshIsSettled()
    ensures Settled(FRESH)
  {
    assert FRESH.pending + [] == [];
    assert SkipSpace([]) == [];
  }

  lemma FeedSettles(s: State, bytes: seq<byte>)
    ensures Settled(Feed(s, bytes).state)
  {
    var whole := s.(pending := s.pending + bytes);
    var t := Settle(whole);
    var f := Extract(t);
    var g := Guard(f).state;
    assert g.pending + [] == g.pending;
    SettleTwice(whole);
    match t.mode
    case JsonLines =>
      LinesRest(t.pending);
    case WebSocketFrames =>
      DrainRest(t.pending, t.fragment);
    case _ =>
  }

  /** Every way of cutting a calm stream up gives the outcome of feeding it in one piece. */
  lemma {:induction false} CalmIndependence(s: State, chunks: seq<seq<byte>>)
    requires Settled(s) && Calm(s, Flatten(chunks))
    ensures FeedAll(s, chunks) == Feed(s, Flatten(chunks))
    decreases |chunks|
  {
    if chunks != [] {
      var later := Flatten(chunks[1..]);
      CalmTail(s, chunks[0], later);
      var first := Feed(s, chunks[0]);
      FeedSettles(s, chunks[0]);
      CalmIndependence(first.state, chunks[1..]);
      UnclearedIsInvisible(s, chunks[0], later);
    }
  }
}

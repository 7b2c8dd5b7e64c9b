/**
  When the decoder throws buffered bytes away, read off the bytes themselves, and
  the streams on which it never does, however they are cut.
 */
module Limits {
  import opened Common
  import opened Bytes
  import opened Frames
  import opened Wire

  // ---------------------------------------------------------------- one call

  /** Behind the complete frames stands a violation or too long a part of a frame. */
  predicate Spills(p: seq<byte>)
    decreases |p|
  {
    match ParseFrame(p)
    case Incomplete => |p| > MAX_MESSAGE
    case Violation => true
    case Frame(_, _, _, size) => Spills(p[size..])
  }

  /** The bytes behind the handshake, if it is complete. */
  function Body(p: seq<byte>): Option<seq<byte>> {
    match FindTerminator(p)
    case None => None
    case Some(t) => if t + 4 <= |p| then Some(p[t + 4..]) else None
  }

  predicate Discards(mode: WireMode, p: seq<byte>)
    decreases mode.Unknown?
  {
    match mode
    case JsonLines => |SplitLines(p).rest| > MAX_MESSAGE
    case WebSocketFrames => Spills(p)
    case WebSocketHandshake => if Body(p).None? then |p| > MAX_MESSAGE else Spills(Body(p).value)
    case Unknown => if Detect(p).Unknown? then |p| > MAX_MESSAGE else Discards(Detect(p), p)
  }

  lemma {:induction false} SpillsIff(p: seq<byte>, fragment: Fragment)
    ensures Spills(p) <==> Drain(p, fragment).cleared || |Drain(p, fragment).pending| > MAX_MESSAGE
    decreases |p|
  {
    var f := ParseFrame(p);
    if f.Frame? {
      SpillsIff(p[f.size..], Accept(fragment, f.final, f.opcode, f.payload).fragment);
    }
  }

  lemma ExtractDiscards(t: State)
    requires t.mode.JsonLines? || t.mode.WebSocketFrames?
    ensures Guard(Extract(t)).cleared <==> Discards(t.mode, t.pending)
  {
    if t.mode.WebSocketFrames? {
      SpillsIff(t.pending, t.fragment);
    }
  }

  lemma SettleDiscards(s: State)
    ensures var t := Settle(s);
            Discards(s.mode, s.pending) <==>
            if t.mode.JsonLines? || t.mode.WebSocketFrames? then Discards(t.mode, t.pending)
            else |s.pending| > MAX_MESSAGE
  {
    TerminatorIsThere(s.pending);
  }

  /** A call throws bytes away exactly when the buffered bytes and the new ones together are of this kind. */
  lemma DiscardsIff(s: State, chunk: seq<byte>)
    ensures Feed(s, chunk).cleared <==> Discards(s.mode, s.pending + chunk)
  {
    var whole := s.(pending := s.pending + chunk);
    var t := Settle(whole);
    SettleDiscards(whole);
    if t.mode.JsonLines? || t.mode.WebSocketFrames? {
      ExtractDiscards(t);
    }
  }

  /** A chunk boundary is invisible to every continuation exactly when the bytes up to it are not thrown away. */
  lemma BoundaryInvisible(s: State, chunk: seq<byte>)
    ensures (forall later :: Invisible(s, chunk, later)) <==> !Discards(s.mode, s.pending + chunk)
  {
    DiscardsIff(s, chunk);
    if Feed(s, chunk).cleared {
      ClearedIsVisible(s, chunk);
    } else {
      forall later
        ensures Invisible(s, chunk, later)
      {
        UnclearedIsInvisible(s, chunk, later);
      }
    }
  }

  // ---------------------------------------------------------------- frames

  /** No violation, no frame longer than the buffer but for its last byte, no long remainder. */
  predicate Bounded(p: seq<byte>)
    decreases |p|
  {
    match ParseFrame(p)
    case Incomplete => |p| <= MAX_MESSAGE
    case Violation => false
    case Frame(_, _, _, size) => size <= MAX_MESSAGE + 1 && Bounded(p[size..])
  }

  /** A frame is complete as soon as its last byte is there, and not before. */
  lemma FrameEarly(p: seq<byte>, k: nat)
    requires k <= |p| && !ParseFrame(p).Violation?
    ensures ParseFrame(p[..k]) ==
            if ParseFrame(p).Frame? && ParseFrame(p).size <= k then ParseFrame(p) else Incomplete
  {
    var q := p[..k];
    assert q + p[k..] == p;
    if !ParseFrame(q).Incomplete? {
      ParseStable(q, p[k..]);
    } else if ParseFrame(p).Frame? && ParseFrame(p).size <= k {
      assert k >= 2 && q[1] == p[1];
      HeadStable(q, p[k..]);
    }
  }

  lemma {:induction false} BoundedNeverSpills(p: seq<byte>, k: nat)
    requires Bounded(p) && k <= |p|
    ensures !Spills(p[..k])
    decreases |p|
  {
    FrameEarly(p, k);
    var f := ParseFrame(p);
    if f.Frame? && f.size <= k {
      assert p[..k][f.size..] == p[f.size..][..k - f.size];
      BoundedNeverSpills(p[f.size..], k - f.size);
    }
  }

  lemma {:induction false} UnboundedSpills(p: seq<byte>) returns (k: nat)
    requires !Bounded(p)
    ensures k <= |p| && Spills(p[..k])
    decreases |p|
  {
    var f := ParseFrame(p);
    assert p[..|p|] == p;
    if !f.Frame? {
      k := |p|;
    } else if f.size > MAX_MESSAGE + 1 {
      k := f.size - 1;
      FrameEarly(p, k);
    } else {
      k := UnboundedSpills(p[f.size..]);
      assert p[..f.size + k][f.size..] == p[f.size..][..k];
      k := f.size + k;
      FrameEarly(p, k);
    }
  }

  // ---------------------------------------------------------------- lines

  /** No line, finished or not, is longer than the buffer. */
  predicate ShortLines(p: seq<byte>) {
    forall i, j | 0 <= i <= j <= |p| && NoLineFeed(p, i, j) :: j - i <= MAX_MESSAGE
  }

  predicate NoLineFeed(p: seq<byte>, i: nat, j: nat)
    requires i <= j <= |p|
  {
    forall l | i <= l < j :: p[l] != LF
  }

  lemma {:induction false} LineEndEarly(p: seq<byte>, k: nat)
    requires k <= |p|
    ensures LineEnd(p[..k]) == Min(k, LineEnd(p))
    decreases |p|
  {
    if k > 0 && p[0] != LF {
      assert p[..k][1..] == p[1..][..k - 1];
      LineEndEarly(p[1..], k - 1);
    }
  }

  lemma {:induction false} WithoutLineFeed(p: seq<byte>)
    requires LineEnd(p) == |p|
    ensures NoLineFeed(p, 0, |p|)
    decreases |p|
  {
    if p != [] {
      WithoutLineFeed(p[1..]);
      forall l | 0 < l < |p|
        ensures p[l] != LF
      {
        assert p[l] == p[1..][l - 1];
      }
    }
  }

  /** What is left are the bytes behind the last line feed. */
  ghost predicate IsLastLine(p: seq<byte>, r: seq<byte>) {
    && |r| <= |p| && r == p[|p| - |r|..] && NoLineFeed(p, |p| - |r|, |p|)
    && (|r| < |p| ==> p[|p| - |r| - 1] == LF)
  }

  lemma {:induction false} RestIsLastLine(p: seq<byte>) returns (r: seq<byte>)
    ensures r == SplitLines(p).rest
    ensures IsLastLine(p, r)
    decreases |p|
  {
    var n := LineEnd(p);
    if n == |p| {
      WithoutLineFeed(p);
      r := p;
    } else {
      LinesUnfold(p);
      r := RestIsLastLine(p[n + 1..]);
      LastLineOfTail(p, n + 1, r);
    }
  }

  lemma LastLineOfTail(p: seq<byte>, m: nat, r: seq<byte>)
    requires 0 < m <= |p| && p[m - 1] == LF && IsLastLine(p[m..], r)
    ensures IsLastLine(p, r)
  {
    forall l | |p| - |r| <= l < |p|
      ensures p[l] != LF
    {
      assert p[l] == p[m..][l - m];
    }
    assert |r| < |p| - m ==> p[|p| - |r| - 1] == p[m..][|p[m..]| - |r| - 1];
  }

  lemma ShortNeverOverflows(p: seq<byte>, k: nat)
    requires ShortLines(p) && k <= |p|
    ensures |SplitLines(p[..k]).rest| <= MAX_MESSAGE
  {
    var r := RestIsLastLine(p[..k]);
    var n := |r|;
    forall l | k - n <= l < k
      ensures p[l] != LF
    {
      assert p[l] == p[..k][l];
    }
    assert NoLineFeed(p, k - n, k);
  }

  lemma LongOverflows(p: seq<byte>) returns (k: nat)
    requires !ShortLines(p)
    ensures k <= |p| && |SplitLines(p[..k]).rest| > MAX_MESSAGE
  {
    var i, j :| 0 <= i <= j <= |p| && NoLineFeed(p, i, j) && j - i > MAX_MESSAGE;
    k := j;
    var r := RestIsLastLine(p[..k]);
    LastLineReaches(p, i, j, r);
  }

  lemma LastLineReaches(p: seq<byte>, i: nat, j: nat, r: seq<byte>)
    requires i <= j <= |p| && NoLineFeed(p, i, j) && IsLastLine(p[..j], r)
    ensures j - i <= |r|
  {
    if |r| < j {
      assert p[j - |r| - 1] == p[..j][|p[..j]| - |r| - 1];
    }
  }

  // ---------------------------------------------------------------- handshakes

  lemma {:induction false} TerminatorEarly(p: seq<byte>, k: nat)
    requires k <= |p|
    ensures FindTerminator(p[..k]) ==
            if FindTerminator(p).Some? && FindTerminator(p).value + 4 <= k then FindTerminator(p) else None
    decreases |p|
  {
    if k >= 4 {
      assert p[..k][..4] == p[..4];
      assert p[..k][1..] == p[1..][..k - 1];
      TerminatorEarly(p[1..], k - 1);
    }
  }

  lemma BodyEarly(p: seq<byte>, k: nat)
    requires k <= |p|
    ensures Body(p).None? ==> Body(p[..k]).None?
    ensures Body(p).Some? ==>
              var start := |p| - |Body(p).value|;
              && FindTerminator(p) == Some(start - 4)
              && Body(p[..k]) == if k < start then None else Some(Body(p).value[..k - start])
  {
    TerminatorIsThere(p);
    TerminatorEarly(p, k);
    if Body(p).Some? {
      var start := |p| - |Body(p).value|;
      assert k >= start ==> p[..k][start..] == p[start..][..k - start];
    }
  }

  // ---------------------------------------------------------------- whole streams

  /** Undetected bytes, lines, the handshake and frames all stay within the buffer. */
  ghost predicate Keeps(mode: WireMode, p: seq<byte>)
    decreases mode.Unknown?
  {
    match mode
    case JsonLines => ShortLines(p)
    case WebSocketFrames => Bounded(p)
    case WebSocketHandshake =>
      if Body(p).None? then |p| <= MAX_MESSAGE
      else |p| - |Body(p).value| <= MAX_MESSAGE + 1 && Bounded(Body(p).value)
    case Unknown =>
      && (forall k | 0 <= k <= |p| && Detect(p[..k]).Unknown? :: k <= MAX_MESSAGE)
      && (Detect(p).Unknown? || Keeps(Detect(p), p))
  }

  lemma HandshakeKeeps(p: seq<byte>, k: nat)
    requires Keeps(WebSocketHandshake, p) && k <= |p|
    ensures !Discards(WebSocketHandshake, p[..k])
  {
    BodyEarly(p, k);
    if Body(p).Some? && k >= |p| - |Body(p).value| {
      BoundedNeverSpills(Body(p).value, k - (|p| - |Body(p).value|));
    }
  }

  lemma HandshakeDiscards(p: seq<byte>) returns (k: nat)
    requires !Keeps(WebSocketHandshake, p)
    ensures k <= |p| && Discards(WebSocketHandshake, p[..k])
  {
    assert p[..|p|] == p;
    k := |p|;
    if Body(p).Some? {
      var start := |p| - |Body(p).value|;
      if start > MAX_MESSAGE + 1 {
        k := start - 1;
      } else {
        k := UnboundedSpills(Body(p).value);
        k := start + k;
      }
      BodyEarly(p, k);
    }
  }

  lemma KnownKeeps(mode: WireMode, p: seq<byte>, k: nat)
    requires !mode.Unknown? && Keeps(mode, p) && k <= |p|
    ensures !Discards(mode, p[..k])
  {
    match mode
    case JsonLines => ShortNeverOverflows(p, k);
    case WebSocketFrames => BoundedNeverSpills(p, k);
    case WebSocketHandshake => HandshakeKeeps(p, k);
  }

  lemma KnownDiscards(mode: WireMode, p: seq<byte>) returns (k: nat)
    requires !mode.Unknown? && !Keeps(mode, p)
    ensures k <= |p| && Discards(mode, p[..k])
  {
    match mode
    case JsonLines => k := LongOverflows(p);
    case WebSocketFrames => k := UnboundedSpills(p);
    case WebSocketHandshake => k := HandshakeDiscards(p);
  }

  lemma DetectEarly(p: seq<byte>, k: nat)
    requires k <= |p| && !Detect(p[..k]).Unknown?
    ensures Detect(p) == Detect(p[..k])
  {
    assert p[..k] + p[k..] == p;
    DetectGrows(p[..k], p[k..]);
  }

  /** A violation within the limit is still there when more bytes have come. */
  lemma {:induction false} ViolationStays(p: seq<byte>, k: nat)
    requires k <= |p| && k <= MAX_MESSAGE && Spills(p[..k])
    ensures Spills(p)
    decreases |p|
  {
    var f := ParseFrame(p[..k]);
    assert p[..k] + p[k..] == p;
    ParseStable(p[..k], p[k..]);
    if f.Frame? {
      assert p[..k][f.size..] == p[f.size..][..k - f.size];
      ViolationStays(p[f.size..], k - f.size);
    }
  }

  /** What is thrown away at a length where the mode was still open is thrown away later as well. */
  lemma {:induction false} DiscardedLater(p: seq<byte>, k: nat)
    requires k <= |p| && k <= MAX_MESSAGE && !Detect(p).Unknown? && Discards(Detect(p), p[..k])
    ensures Discards(Unknown, p)
  {
    BodyEarly(p, k);
    if Detect(p).WebSocketHandshake? {
      assert Body(p).Some?;
      ViolationStays(Body(p).value, k - (|p| - |Body(p).value|));
    } else {
      var r := RestIsLastLine(p[..k]);
    }
  }

  lemma NeverDiscards(mode: WireMode, p: seq<byte>, k: nat)
    requires Keeps(mode, p) && k <= |p|
    ensures !Discards(mode, p[..k])
  {
    if !mode.Unknown? {
      KnownKeeps(mode, p, k);
    } else if !Detect(p[..k]).Unknown? {
      DetectEarly(p, k);
      KnownKeeps(Detect(p), p, k);
    }
  }

  lemma DiscardsSomewhere(mode: WireMode, p: seq<byte>) returns (k: nat)
    requires !Keeps(mode, p)
    ensures k <= |p| && Discards(mode, p[..k])
  {
    if !mode.Unknown? {
      k := KnownDiscards(mode, p);
    } else if long :| 0 <= long <= |p| && Detect(p[..long]).Unknown? && long > MAX_MESSAGE {
      k := long;
    } else {
      k := KnownDiscards(Detect(p), p);
      if Detect(p[..k]).Unknown? {
        DiscardedLater(p, k);
        k := |p|;
        assert p[..k] == p;
      } else {
        DetectEarly(p, k);
      }
    }
  }

  /** What a settled decoder holds is within the limits. */
  lemma SettledKeeps(s: State)
    requires Settled(s)
    ensures Keeps(s.mode, s.pending)
  {
    var p := s.pending;
    assert p + [] == p;
    TerminatorIsThere(p);
    match s.mode
    case JsonLines => LinesRest(p);
    case WebSocketFrames => SettledFrames(p, s.fragment);
    case WebSocketHandshake =>
    case Unknown =>
      assert Detect(p).Unknown? && |p| <= MAX_MESSAGE;
  }

  lemma SettledFrames(p: seq<byte>, fragment: Fragment)
    requires var d := Drain(p, fragment); d.pending == p && d.failures == 0 && |p| <= MAX_MESSAGE
    ensures ParseFrame(p).Incomplete?
  {
    DrainRest(p, fragment);
  }

  lemma KeptIsCalm(s: State, stream: seq<byte>, k: nat)
    requires Keeps(s.mode, s.pending + stream) && k <= |stream|
    ensures !Feed(s, stream[..k]).cleared
  {
    NeverDiscardsPart(s.mode, s.pending, stream, k);
    DiscardsIff(s, stream[..k]);
  }

  lemma NeverDiscardsPart(mode: WireMode, p: seq<byte>, stream: seq<byte>, k: nat)
    requires Keeps(mode, p + stream) && k <= |stream|
    ensures !Discards(mode, p + stream[..k])
  {
    NeverDiscards(mode, p + stream, |p| + k);
    assert (p + stream)[..|p| + k] == p + stream[..k];
  }

  lemma CalmIsKept(s: State, stream: seq<byte>)
    requires Settled(s) && Calm(s, stream)
    ensures Keeps(s.mode, s.pending + stream)
  {
    var whole := s.pending + stream;
    if !Keeps(s.mode, whole) {
      var k := DiscardsSomewhere(s.mode, whole);
      SettledKeeps(s);
      if k < |s.pending| {
        assert whole[..k] == s.pending[..k];
        NeverDiscards(s.mode, s.pending, k);
      } else {
        assert whole[..k] == s.pending + stream[..k - |s.pending|];
        DiscardsIff(s, stream[..k - |s.pending|]);
      }
    }
  }

  /** A stream is calm exactly when, behind what is buffered already, it stays within the limits. */
  lemma CalmIff(s: State, stream: seq<byte>)
    requires Settled(s)
    ensures Calm(s, stream) <==> Keeps(s.mode, s.pending + stream)
  {
    if Calm(s, stream) {
      CalmIsKept(s, stream);
    }
    if Keeps(s.mode, s.pending + stream) {
      forall k | 0 <= k <= |stream|
        ensures !Feed(s, stream[..k]).cleared
      {
        KeptIsCalm(s, stream, k);
      }
    }
  }

  /** A boundary at this point leaves no trace whatever follows. */
  ghost predicate NoTrace(s: State, chunk: seq<byte>) {
    forall later :: Invisible(s, chunk, later)
  }

  /** The streams that can be cut anywhere, whatever follows the cut, are exactly those within the limits. */
  lemma BoundariesInvisibleIff(s: State, stream: seq<byte>)
    requires Settled(s)
    ensures (forall k | 0 <= k <= |stream| :: NoTrace(s, stream[..k])) <==> Keeps(s.mode, s.pending + stream)
  {
    CalmIff(s, stream);
    forall k | 0 <= k <= |stream|
      ensures NoTrace(s, stream[..k]) <==> !Feed(s, stream[..k]).cleared
    {
      BoundaryInvisible(s, stream[..k]);
      DiscardsIff(s, stream[..k]);
    }
  }

  /** The limits for a stream read from its beginning. */
  ghost predicate WithinLimits(stream: seq<byte>) {
    Keeps(Unknown, stream)
  }

  lemma FreshCalmIff(stream: seq<byte>)
    ensures Calm(FRESH, stream) <==> WithinLimits(stream)
  {
    FreshIsSettled();
    CalmIff(FRESH, stream);
    assert FRESH.pending + stream == stream;
  }

  /**
    Chunk independence. A stream that stays within the limits can be cut up in
    every way: the messages, the failure count and the final state are those of
    feeding it in one piece.
   */
  lemma ChunkIndependence(s: State, chunks: seq<seq<byte>>)
    requires Settled(s) && Keeps(s.mode, s.pending + Flatten(chunks))
    ensures FeedAll(s, chunks) == Feed(s, Flatten(chunks))
  {
    CalmIff(s, Flatten(chunks));
    CalmIndependence(s, chunks);
  }
}

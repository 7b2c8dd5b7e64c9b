/**
  What one call of the observing decoder does, said in bytes: which mode the
  first bytes choose, where the handshake ends, what the lines are, and when
  everything is thrown away.
 */
module WireReading {
  import opened Common
  import opened Bytes
  import opened Frames
  import opened Picks
  import opened Wire
  import F = Fragments

  // ---------------------------------------------------------------- the first bytes

  predicate White(b: byte) {
    b in {32, 9, 10, 12, 13}
  }

  /** The first byte that is not white space stands at i, or there is none and i is the end. */
  predicate StartsAt(p: seq<byte>, i: nat) {
    i <= |p| && (forall j | 0 <= j < i :: White(p[j])) && (i < |p| ==> !White(p[i]))
  }

  /** From there on the bytes are "GET " or "HTTP/" and whatever follows. */
  predicate AsksUpgrade(p: seq<byte>, i: nat)
    requires i <= |p|
  {
    [71, 69, 84, 32] <= p[i..] || [72, 84, 84, 80, 47] <= p[i..]
  }

  /** From there on they open a JSON text, or are too many to become an upgrade. */
  predicate TakenForJson(p: seq<byte>, i: nat)
    requires i <= |p|
  {
    !AsksUpgrade(p, i) && i < |p| && (p[i] == 123 || p[i] == 91 || |p| - i >= 5)
  }

  lemma {:induction false} StartIsSkipped(p: seq<byte>, i: nat)
    requires StartsAt(p, i)
    ensures SkipSpace(p) == p[i..]
    decreases |p|
  {
    if i > 0 {
      assert StartsAt(p[1..], i - 1);
      StartIsSkipped(p[1..], i - 1);
      assert p[1..][i - 1..] == p[i..];
    } else {
      assert p[0..] == p;
    }
  }

  lemma {:induction false} SomeStart(p: seq<byte>) returns (i: nat)
    ensures StartsAt(p, i)
    decreases |p|
  {
    if p != [] && White(p[0]) {
      i := SomeStart(p[1..]);
      i := i + 1;
    } else {
      i := 0;
    }
  }

  /** The mode is chosen by the first four or five bytes behind white space. */
  lemma DetectIff(p: seq<byte>, i: nat)
    requires StartsAt(p, i)
    ensures Detect(p) == if AsksUpgrade(p, i) then WebSocketHandshake
                         else if TakenForJson(p, i) then JsonLines else Unknown
  {
    StartIsSkipped(p, i);
  }

  // ---------------------------------------------------------------- the end of the handshake

  predicate BlankLineAt(p: seq<byte>, k: nat) {
    k + 4 <= |p| && p[k] == 13 && p[k + 1] == 10 && p[k + 2] == 13 && p[k + 3] == 10
  }

  predicate FirstBlankLine(p: seq<byte>, k: nat) {
    BlankLineAt(p, k) && forall j: nat | j < k :: !BlankLineAt(p, j)
  }

  lemma {:induction false} TerminatorIff(p: seq<byte>, k: nat)
    ensures FindTerminator(p) == Some(k) <==> FirstBlankLine(p, k)
    decreases |p|
  {
    if |p| >= 4 {
      assert p[..4] == [p[0], p[1], p[2], p[3]];
      assert BlankLineAt(p, 0) <==> p[..4] == TERMINATOR;
      if !BlankLineAt(p, 0) {
        forall j: nat | 0 < j
          ensures BlankLineAt(p, j) <==> BlankLineAt(p[1..], j - 1)
        {
        }
        if k > 0 {
          TerminatorIff(p[1..], k - 1);
          FirstBlankLater(p, k);
        }
      }
    }
  }

  lemma FirstBlankLater(p: seq<byte>, k: nat)
    requires |p| >= 4 && !BlankLineAt(p, 0) && k > 0
    ensures FirstBlankLine(p, k) <==> FirstBlankLine(p[1..], k - 1)
  {
    forall j: nat | 0 < j
      ensures BlankLineAt(p, j) <==> BlankLineAt(p[1..], j - 1)
    {
    }
    if FirstBlankLine(p, k) {
      forall j: nat | j < k - 1
        ensures !BlankLineAt(p[1..], j)
      {
        assert !BlankLineAt(p, j + 1);
      }
    }
  }

  // ---------------------------------------------------------------- lines

  /** Each line with the line feed that ends it. */
  function Joined(lines: seq<seq<byte>>): seq<byte> {
    if lines == [] then [] else lines[0] + [10] + Joined(lines[1..])
  }

  /** The bytes are these lines and an unfinished one. */
  predicate AreLines(p: seq<byte>, lines: seq<seq<byte>>, rest: seq<byte>) {
    && p == Joined(lines) + rest
    && 10 !in rest && forall i | 0 <= i < |lines| :: 10 !in lines[i]
  }

  lemma {:induction false} SplitAreLines(p: seq<byte>)
    ensures AreLines(p, SplitLines(p).lines, SplitLines(p).rest)
    decreases |p|
  {
    var n := LineEnd(p);
    if n == |p| {
      NoLineFeedBefore(p);
    } else {
      LinesUnfold(p);
      SplitAreLines(p[n + 1..]);
      NoLineFeedBefore(p);
      FirstLineJoins(p, n, SplitLines(p[n + 1..]));
    }
  }

  lemma FirstLineJoins(p: seq<byte>, n: nat, tail: Lines)
    requires n < |p| && p[n] == 10 && 10 !in p[..n] && AreLines(p[n + 1..], tail.lines, tail.rest)
    ensures AreLines(p, [p[..n]] + tail.lines, tail.rest)
  {
    var lines := [p[..n]] + tail.lines;
    assert lines[1..] == tail.lines;
    assert p == p[..n] + [10] + p[n + 1..];
  }

  lemma {:induction false} NoLineFeedBefore(p: seq<byte>)
    ensures 10 !in p[..LineEnd(p)]
    decreases |p|
  {
    if p != [] && p[0] != 10 {
      NoLineFeedBefore(p[1..]);
      var n := LineEnd(p[1..]);
      assert p[..n + 1] == [p[0]] + p[1..][..n];
    }
  }

  lemma {:induction false} LinesAreSplit(lines: seq<seq<byte>>, rest: seq<byte>)
    requires 10 !in rest && forall i | 0 <= i < |lines| :: 10 !in lines[i]
    ensures SplitLines(Joined(lines) + rest) == Lines(lines, rest)
    decreases |lines|
  {
    if lines == [] {
      assert [] + rest == rest;
      EndOfLine(rest, []);
    } else {
      LinesAreSplit(lines[1..], rest);
      FirstOfLines(lines, rest, Joined(lines[1..]) + rest);
    }
  }

  lemma FirstOfLines(lines: seq<seq<byte>>, rest: seq<byte>, later: seq<byte>)
    requires lines != [] && 10 !in lines[0]
    requires later == Joined(lines[1..]) + rest && SplitLines(later) == Lines(lines[1..], rest)
    ensures SplitLines(Joined(lines) + rest) == Lines(lines, rest)
  {
    TakeLine(lines[0], later);
    AppendThree(lines[0] + [10], Joined(lines[1..]), rest);
    assert [lines[0]] + lines[1..] == lines;
  }

  /** Lines end at line feeds and nowhere else. */
  lemma LinesIff(p: seq<byte>, lines: seq<seq<byte>>, rest: seq<byte>)
    ensures SplitLines(p) == Lines(lines, rest) <==> AreLines(p, lines, rest)
  {
    SplitAreLines(p);
    if AreLines(p, lines, rest) {
      LinesAreSplit(lines, rest);
    }
  }

  // ---------------------------------------------------------------- one call

  /** Bytes that settle nothing are kept, unless they are more than 64 MiB. */
  function Waiting(s: State, q: seq<byte>): Fed {
    if |q| > 67108864 then Fed(State(s.mode, [], None), [], 1, true)
    else Fed(State(s.mode, q, s.fragment), [], 0, false)
  }

  lemma UnknownFed(s: State, bytes: seq<byte>, i: nat)
    requires s.mode.Unknown? && StartsAt(s.pending + bytes, i)
    ensures var q := s.pending + bytes;
            Feed(s, bytes) == if AsksUpgrade(q, i) then Feed(s.(mode := WebSocketHandshake), bytes)
                              else if TakenForJson(q, i) then Feed(s.(mode := JsonLines), bytes)
                              else Waiting(s, q)
  {
    DetectIff(s.pending + bytes, i);
  }

  lemma HandshakeFed(s: State, bytes: seq<byte>)
    requires s.mode.WebSocketHandshake?
    ensures var q := s.pending + bytes;
            && (forall k: nat | FirstBlankLine(q, k) ::
                  Feed(s, bytes) == Feed(State(WebSocketFrames, q[k + 4..], s.fragment), []))
            && ((forall k: nat :: !BlankLineAt(q, k)) ==> Feed(s, bytes) == Waiting(s, q))
  {
    var q := s.pending + bytes;
    forall k: nat
      ensures FindTerminator(q) == Some(k) <==> FirstBlankLine(q, k)
    {
      TerminatorIff(q, k);
    }
    forall k: nat | FirstBlankLine(q, k)
      ensures Feed(s, bytes) == Feed(State(WebSocketFrames, q[k + 4..], s.fragment), [])
    {
      BodyFed(s, bytes, k);
    }
  }

  lemma BodyFed(s: State, bytes: seq<byte>, k: nat)
    requires s.mode.WebSocketHandshake? && FindTerminator(s.pending + bytes) == Some(k)
    requires k + 4 <= |s.pending + bytes|
    ensures Feed(s, bytes) == Feed(State(WebSocketFrames, (s.pending + bytes)[k + 4..], s.fragment), [])
  {
    var body := (s.pending + bytes)[k + 4..];
    assert body + [] == body;
  }

  lemma LinesFed(s: State, bytes: seq<byte>, lines: seq<seq<byte>>, rest: seq<byte>)
    requires s.mode.JsonLines? && AreLines(s.pending + bytes, lines, rest)
    ensures Feed(s, bytes) == if |rest| > 67108864 then Fed(State(JsonLines, [], None), lines, 1, true)
                              else Fed(State(JsonLines, rest, s.fragment), lines, 0, false)
  {
    LinesIff(s.pending + bytes, lines, rest);
  }

  /** Frames give their declared messages; a refused frame, or too long a part of one, is thrown away and counted. */
  lemma FramesFed(s: State, bytes: seq<byte>)
    requires s.mode.WebSocketFrames?
    ensures var q, f := s.pending + bytes, Feed(s, bytes);
            var fs, rest := F.Opening(s.fragment) + F.PiecesOf(q), F.Rest(q);
            var refused, long := ParseFrame(rest).Violation?, |rest| > 67108864;
            && F.AreMessages(fs, |fs|, f.messages)
            && f.failures == |Places(|fs|, F.FaultyAt(fs))| + (if refused || long then 1 else 0)
            && f.state.mode == WebSocketFrames && f.cleared == (refused || long)
            && f.state.pending == (if refused || long then [] else rest)
            && if long && !refused then f.state.fragment == None else F.Holds(fs, |fs|, f.state.fragment)
  {
    F.DrainIsDeclared(s.pending + bytes, s.fragment);
  }
}

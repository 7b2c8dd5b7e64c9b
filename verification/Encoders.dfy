/**
  The two encoders of masked text frames, and what the decoder makes of their
  output however it is cut into chunks.
 */
module Encoders {
  import opened Common
  import opened Bytes
  import opened Frames
  import W = Wire
  import Reads = WireReading

  /** The fixed key of the injected control requests. */
  const CONTROL_MASK: seq<byte> := [0x43, 0x4d, 0x43, 0x31]

  /** First length byte and extended length, in the shortest of the three forms. */
  function LengthBytes(n: nat): (s: seq<byte>)
  {
    if n <= 125 then [0x80 | n as byte]
    else if n <= 65535 then [0x80 | 126] + ToBigEndian(n, 2)
    else [0x80 | 127] + ToBigEndian(n, 8)
  }

  /** A final, masked frame (sections 5.2 and 5.3 of RFC 6455). */
  function MaskedFrame(opcode: byte, mask: seq<byte>, payload: seq<byte>): seq<byte>
    requires |mask| == 4
  {
    [0x80 | opcode] + LengthBytes(|payload|) + mask + Masked(payload, mask)
  }

  lemma ShortLengthBits(n: nat)
    requires n <= 127
    ensures var second := 0x80 | n as byte; (second & 0x7f) as nat == n && second & 0x80 != 0
  {
    SmallByte(n as byte);
    SevenBits(n as byte);
  }

  lemma SmallByte(b: byte)
    requires b as nat <= 127
    ensures b <= 127
  {
  }

  lemma SevenBits(b: byte)
    requires b <= 127
    ensures (0x80 | b) & 0x7f == b && (0x80 | b) & 0x80 != 0
  {
    assert b & 0x80 == 0;
  }

  lemma FirstByteBits(opcode: byte)
    requires opcode & 0xf0 == 0
    ensures var first := 0x80 | opcode; first & 0x70 == 0 && first & 0x80 != 0 && first & 0x0f == opcode
  {
  }

  lemma LengthBytesRead(n: nat)
    requires n <= MAX_MESSAGE
    ensures var s := LengthBytes(n);
            && |s| >= 1 && s[0] & 0x80 != 0
            && LengthEnd(s[0]) == |s| + 1
            && PayloadLength(s[0], s[1..]) == n
  {
    if n <= 125 {
      ShortLengthBits(n);
      assert LengthBytes(n)[1..] == [];
    } else if n <= 65535 {
      assert Pow256(1) == 256 && Pow256(2) == 65536;
      BigEndianRoundTrip(n, 2);
      assert LengthBytes(n)[1..] == ToBigEndian(n, 2);
    } else {
      assert Pow256(4) == 0x1_0000_0000 by { assert Pow256(2) == 65536; }
      assert Pow256(5) >= Pow256(4) && Pow256(6) >= Pow256(5) && Pow256(7) >= Pow256(6) && Pow256(8) >= Pow256(7);
      BigEndianRoundTrip(n, 8);
      assert LengthBytes(n)[1..] == ToBigEndian(n, 8);
    }
  }

  lemma MaskedFrameHead(opcode: byte, mask: seq<byte>, payload: seq<byte>)
    requires |mask| == 4 && |payload| <= MAX_MESSAGE && opcode & 0xf0 == 0
    ensures var l := LengthBytes(|payload|);
            ReadHead(MaskedFrame(opcode, mask, payload)) == Head(true, opcode, true, |l| + 5, |payload|)
  {
    var p, l := MaskedFrame(opcode, mask, payload), LengthBytes(|payload|);
    FirstByteBits(opcode);
    LengthBytesRead(|payload|);
    assert p[0] == 0x80 | opcode && p[1] == l[0];
    assert p[2..|l| + 1] == l[1..];
  }

  /** Decoding an encoded frame gives back its payload and ends exactly where the frame ends. */
  lemma {:induction false} MaskedFrameParses(opcode: byte, mask: seq<byte>, payload: seq<byte>, rest: seq<byte>)
    requires |mask| == 4 && |payload| <= MAX_MESSAGE && opcode & 0xf0 == 0
    ensures var p := MaskedFrame(opcode, mask, payload);
            ParseFrame(p + rest) == Frame(true, opcode, payload, |p|)
  {
    var p, l := MaskedFrame(opcode, mask, payload), LengthBytes(|payload|);
    MaskedFrameHead(opcode, mask, payload);
    var start := |l| + 5;
    assert p[start - 4..start] == mask;
    assert p[start..start + |payload|] == Masked(payload, mask);
    MaskInvolution(payload, mask);
    assert ParseFrame(p) == Frame(true, opcode, payload, |p|);
    ParseStable(p, rest);
  }

  /** The length takes the shortest of its three forms, and behind it stands the key (section 5.2 of RFC 6455). */
  predicate LaidOut(frame: seq<byte>, mask: seq<byte>, payload: seq<byte>) {
    var n := |payload|;
    var at := if n <= 125 then 2 else if n <= 65535 then 4 else 10;
    |frame| == at + 4 + n && frame[at..at + 4] == mask
  }

  lemma MaskedFrameIsLaidOut(opcode: byte, mask: seq<byte>, payload: seq<byte>)
    requires |mask| == 4
    ensures LaidOut(MaskedFrame(opcode, mask, payload), mask, payload)
  {
  }

  // ---------------------------------------------------------------- the encoders

  datatype EncodeError = TooLarge

  /** The injector's encoder: a fixed key, and no eight-byte length. */
  method MaskedWebsocketTextFrame(payload: seq<byte>) returns (r: Result<seq<byte>, EncodeError>)
    ensures r.Err? <==> |payload| > 65535
    ensures r.Ok? ==> r.value == MaskedFrame(TEXT, CONTROL_MASK, payload)
    ensures r.Ok? ==> LaidOut(r.value, [0x43, 0x4d, 0x43, 0x31], payload)
    ensures r.Ok? ==> forall rest :: ParseFrame(r.value + rest) == Frame(true, TEXT, payload, |r.value|)
  {
    var frame: seq<byte> := [0x81];
    if |payload| <= 125 {
      frame := frame + [0x80 | |payload| as byte];
    } else if |payload| <= 65535 {
      frame := frame + [0x80 | 126];
      frame := frame + ToBigEndian(|payload|, 2);
    } else {
      return Err(TooLarge);
    }
    assert frame == [0x80 | TEXT] + LengthBytes(|payload|);
    frame := frame + CONTROL_MASK;
    frame := frame + Masked(payload, CONTROL_MASK);
    MaskedFrameIsLaidOut(TEXT, CONTROL_MASK, payload);
    forall rest
      ensures ParseFrame(frame + rest) == Frame(true, TEXT, payload, |frame|)
    {
      MaskedFrameParses(TEXT, CONTROL_MASK, payload, rest);
    }
    return Ok(frame);
  }

  /** The control client's encoder, with the random key it was given. */
  method SendJson(payload: seq<byte>, mask: seq<byte>) returns (r: Result<seq<byte>, EncodeError>)
    requires |mask| == 4
    ensures r.Err? <==> |payload| > 67108864
    ensures r.Ok? ==> r.value == MaskedFrame(TEXT, mask, payload) && LaidOut(r.value, mask, payload)
    ensures r.Ok? ==> forall rest :: ParseFrame(r.value + rest) == Frame(true, TEXT, payload, |r.value|)
  {
    if |payload| > MAX_MESSAGE {
      return Err(TooLarge);
    }
    var frame: seq<byte> := [0x81];
    if |payload| <= 125 {
      frame := frame + [0x80 | |payload| as byte];
    } else if |payload| <= 65535 {
      frame := frame + [0x80 | 126];
      frame := frame + ToBigEndian(|payload|, 2);
    } else {
      frame := frame + [0x80 | 127];
      frame := frame + ToBigEndian(|payload|, 8);
    }
    assert frame == [0x80 | TEXT] + LengthBytes(|payload|);
    frame := frame + mask;
    frame := frame + Masked(payload, mask);
    MaskedFrameIsLaidOut(TEXT, mask, payload);
    forall rest
      ensures ParseFrame(frame + rest) == Frame(true, TEXT, payload, |frame|)
    {
      MaskedFrameParses(TEXT, mask, payload, rest);
    }
    return Ok(frame);
  }

  // ---------------------------------------------------------------- round trip over streams

  datatype Outgoing = Outgoing(payload: seq<byte>, mask: seq<byte>)
  {
    /** An encodable payload whose frame, but for its last byte, fits the decoder's buffer. */
    predicate Fits() {
      Encodable() && |MaskedFrame(TEXT, mask, payload)| <= 67108865
    }

    predicate Encodable() {
      |mask| == 4 && |payload| <= 67108864
    }

    function Bytes(): seq<byte>
      requires |mask| == 4
    {
      MaskedFrame(TEXT, mask, payload)
    }
  }

  predicate AllFit(items: seq<Outgoing>) {
    forall i | 0 <= i < |items| :: items[i].Fits()
  }

  function Stream(items: seq<Outgoing>): seq<byte>
    requires AllFit(items)
  {
    if items == [] then [] else items[0].Bytes() + Stream(items[1..])
  }

  function Payloads(items: seq<Outgoing>): seq<seq<byte>> {
    if items == [] then [] else [items[0].payload] + Payloads(items[1..])
  }

  /** A strict prefix of one frame is incomplete. */
  lemma PartOfFrame(item: Outgoing, k: nat)
    requires item.Encodable() && k < |item.Bytes()|
    ensures ParseFrame(item.Bytes()[..k]).Incomplete?
  {
    var p := item.Bytes();
    MaskedFrameParses(TEXT, item.mask, item.payload, []);
    assert p + [] == p;
    assert p[..k] + p[k..] == p;
    if !ParseFrame(p[..k]).Incomplete? {
      ParseStable(p[..k], p[k..]);
    }
  }

  /** Draining any prefix of an encoded stream never clears, and keeps less than one frame. */
  lemma {:induction false} StreamPrefix(items: seq<Outgoing>, k: nat)
    requires AllFit(items) && k <= |Stream(items)|
    ensures var d := Drain(Stream(items)[..k], None); !d.cleared && |d.pending| <= MAX_MESSAGE
    decreases |items|
  {
    var s := Stream(items);
    if items != [] {
      var first, tail := items[0].Bytes(), Stream(items[1..]);
      if k < |first| {
        assert s[..k] == first[..k];
        PartOfFrame(items[0], k);
      } else {
        assert s[..k] == first + tail[..k - |first|];
        TakeFirst(items[0], tail[..k - |first|]);
        StreamPrefix(items[1..], k - |first|);
      }
    }
  }

  lemma TakeFirst(item: Outgoing, rest: seq<byte>)
    requires item.Fits()
    ensures Drain(item.Bytes() + rest, None) == Drain(rest, None).After([item.payload], 0)
  {
    MaskedFrameParses(TEXT, item.mask, item.payload, rest);
    assert (item.Bytes() + rest)[|item.Bytes()|..] == rest;
  }

  lemma {:induction false} StreamDrains(items: seq<Outgoing>)
    requires AllFit(items)
    ensures Drain(Stream(items), None) == Drained([], None, Payloads(items), 0, false)
    decreases |items|
  {
    if items != [] {
      TakeFirst(items[0], Stream(items[1..]));
      StreamDrains(items[1..]);
    }
  }

  /** An HTTP upgrade within 64 MiB: "GET " or "HTTP/" behind white space, and all up to the first blank line. */
  predicate Handshake(h: seq<byte>) {
    && 4 <= |h| <= 67108864
    && (exists i: nat :: i <= |h| && Reads.StartsAt(h, i) && Reads.AsksUpgrade(h, i))
    && Reads.FirstBlankLine(h, |h| - 4)
  }

  lemma HandshakeIsRead(h: seq<byte>)
    requires Handshake(h)
    ensures W.Detect(h).WebSocketHandshake? && |h| <= MAX_MESSAGE && W.FindTerminator(h) == Some(|h| - 4)
  {
    UpgradeIsDetected(h);
    HandshakeIsEnded(h);
  }

  lemma HandshakeIsEnded(h: seq<byte>)
    requires |h| >= 4 && Reads.FirstBlankLine(h, |h| - 4)
    ensures W.FindTerminator(h) == Some(|h| - 4)
  {
    Reads.TerminatorIff(h, |h| - 4);
  }

  lemma UpgradeIsDetected(h: seq<byte>)
    requires exists i: nat :: i <= |h| && Reads.StartsAt(h, i) && Reads.AsksUpgrade(h, i)
    ensures W.Detect(h).WebSocketHandshake?
  {
    var i: nat :| i <= |h| && Reads.StartsAt(h, i) && Reads.AsksUpgrade(h, i);
    Reads.DetectIff(h, i);
  }

  lemma {:induction false} HandshakePrefix(h: seq<byte>, k: nat)
    requires Handshake(h) && k < |h|
    ensures !W.Feed(W.FRESH, h[..k]).cleared
  {
    HandshakeIsRead(h);
    var p := h[..k];
    assert p + h[k..] == h;
    if !W.Detect(p).Unknown? {
      W.DetectGrows(p, h[k..]);
    }
    if W.FindTerminator(p).Some? {
      W.TerminatorIsThere(p);
      W.TerminatorGrows(p, h[k..]);
      assert false;
    }
    NotYetFrames(p);
  }

  lemma NotYetFrames(p: seq<byte>)
    requires |p| <= MAX_MESSAGE && !W.Detect(p).JsonLines? && W.FindTerminator(p).None?
    requires !W.Detect(p).WebSocketFrames?
    ensures !W.Feed(W.FRESH, p).cleared
  {
    assert W.FRESH.pending + p == p;
  }

  lemma BehindHandshake(h: seq<byte>, body: seq<byte>)
    requires Handshake(h)
    ensures W.Settle(W.FRESH.(pending := h + body)) == W.State(W.WebSocketFrames, body, None)
  {
    HandshakeIsRead(h);
    W.DetectGrows(h, body);
    W.TerminatorGrows(h, body);
    assert (h + body)[|h|..] == body;
  }

  lemma FramesBehindHandshake(h: seq<byte>, body: seq<byte>)
    requires Handshake(h)
    ensures W.Feed(W.FRESH, h + body) == W.Guard(W.Extract(W.State(W.WebSocketFrames, body, None)))
  {
    assert W.FRESH.pending + (h + body) == h + body;
    BehindHandshake(h, body);
  }

  lemma HandshakeStreamPrefix(h: seq<byte>, items: seq<Outgoing>, k: nat)
    requires Handshake(h) && AllFit(items) && k <= |Stream(items)|
    ensures !W.Feed(W.FRESH, h + Stream(items)[..k]).cleared
  {
    FramesBehindHandshake(h, Stream(items)[..k]);
    StreamPrefix(items, k);
  }

  lemma HandshakeStreamCalm(h: seq<byte>, items: seq<Outgoing>)
    requires Handshake(h) && AllFit(items)
    ensures W.Calm(W.FRESH, h + Stream(items))
  {
    var s := Stream(items);
    forall k | 0 <= k <= |h + s|
      ensures !W.Feed(W.FRESH, (h + s)[..k]).cleared
    {
      if k < |h| {
        assert (h + s)[..k] == h[..k];
        HandshakePrefix(h, k);
      } else {
        assert (h + s)[..k] == h + s[..k - |h|];
        HandshakeStreamPrefix(h, items, k - |h|);
      }
    }
  }

  /**
    Round trip. Encode any payloads with any keys behind any handshake, cut
    the bytes up anywhere: exactly the payloads come out and nothing is left.
   */
  lemma {:induction false} FramesRoundTrip(h: seq<byte>, items: seq<Outgoing>, chunks: seq<seq<byte>>)
    requires Handshake(h) && AllFit(items) && Flatten(chunks) == h + Stream(items)
    ensures W.FeedAll(W.FRESH, chunks)
         == W.Fed(W.State(W.WebSocketFrames, [], None), Payloads(items), 0, false)
  {
    HandshakeStreamCalm(h, items);
    W.FreshIsSettled();
    W.CalmIndependence(W.FRESH, chunks);
    FramesBehindHandshake(h, Stream(items));
    StreamDrains(items);
  }

  ghost predicate SurvivesEveryCut(h: seq<byte>, item: Outgoing)
    requires item.Encodable()
  {
    forall chunks | Flatten(chunks) == h + item.Bytes() ::
      W.FeedAll(W.FRESH, chunks) == W.Fed(W.State(W.WebSocketFrames, [], None), [item.payload], 0, false)
  }

  /** The size bound is exact: a longer frame is lost when it arrives short of its last byte. */
  lemma {:induction false} FrameSurvivesIff(h: seq<byte>, item: Outgoing)
    requires Handshake(h) && item.Encodable()
    ensures SurvivesEveryCut(h, item) <==> |item.Bytes()| <= 67108865
  {
    var p := item.Bytes();
    if item.Fits() {
      assert Stream([item]) == p + Stream([]) == p;
      assert Payloads([item]) == [item.payload];
      forall chunks | Flatten(chunks) == h + p
        ensures W.FeedAll(W.FRESH, chunks) == W.Fed(W.State(W.WebSocketFrames, [], None), [item.payload], 0, false)
      {
        FramesRoundTrip(h, [item], chunks);
      }
    } else {
      var cut := MAX_MESSAGE + 1;
      var chunks := [h + p[..cut], p[cut..]];
      assert Flatten(chunks) == h + p by {
        assert Flatten(chunks[1..]) == p[cut..] + Flatten(chunks[1..][1..]);
        assert Flatten(chunks) == chunks[0] + Flatten(chunks[1..]);
      }
      FramesBehindHandshake(h, p[..cut]);
      PartOfFrame(item, cut);
      assert W.Feed(W.FRESH, chunks[0]).cleared;
      assert W.FeedAll(W.FRESH, chunks).cleared;
    }
  }

  // ---------------------------------------------------------------- JSON lines

  predicate PlainLines(lines: seq<seq<byte>>) {
    forall i | 0 <= i < |lines| :: 10 !in lines[i] && |lines[i]| <= 67108864
  }

  lemma {:induction false} LineStreamSplits(lines: seq<seq<byte>>)
    requires PlainLines(lines)
    ensures W.SplitLines(Reads.Joined(lines)) == W.Lines(lines, [])
    decreases |lines|
  {
    if lines != [] {
      W.TakeLine(lines[0], Reads.Joined(lines[1..]));
      LineStreamSplits(lines[1..]);
      assert [lines[0]] + lines[1..] == lines;
    }
  }

  lemma LineStreamCut(lines: seq<seq<byte>>, k: nat)
    requires lines != [] && k <= |Reads.Joined(lines)|
    ensures var n, tail := |lines[0]|, Reads.Joined(lines[1..]);
            Reads.Joined(lines)[..k] == if k <= n then lines[0][..k] else lines[0] + [LF] + tail[..k - n - 1]
  {
  }

  lemma WithinLine(line: seq<byte>, k: nat)
    requires LF !in line && k <= |line|
    ensures W.SplitLines(line[..k]) == W.Lines([], line[..k])
  {
    W.EndOfLine(line[..k], []);
  }

  lemma {:induction false} LineStreamPrefix(lines: seq<seq<byte>>, k: nat)
    requires PlainLines(lines) && k <= |Reads.Joined(lines)|
    ensures |W.SplitLines(Reads.Joined(lines)[..k]).rest| <= MAX_MESSAGE
    decreases |lines|
  {
    if lines != [] {
      var n, tail := |lines[0]|, Reads.Joined(lines[1..]);
      LineStreamCut(lines, k);
      if k <= n {
        WithinLine(lines[0], k);
      } else {
        W.TakeLine(lines[0], tail[..k - n - 1]);
        LineStreamPrefix(lines[1..], k - n - 1);
      }
    }
  }

  predicate OpensJson(lines: seq<seq<byte>>) {
    lines != [] && lines[0] != [] && lines[0][0] in {123, 91}
  }

  lemma LineStreamFeed(lines: seq<seq<byte>>, k: nat)
    requires PlainLines(lines) && OpensJson(lines) && 0 < k <= |Reads.Joined(lines)|
    ensures W.Feed(W.FRESH, Reads.Joined(lines)[..k])
         == W.Extract(W.State(W.JsonLines, Reads.Joined(lines)[..k], None))
  {
    var p := Reads.Joined(lines)[..k];
    assert W.FRESH.pending + p == p;
    assert p[0] == lines[0][0];
    assert W.GET[0] == 71 && W.HTTP[0] == 72;
    assert W.Detect(p).JsonLines?;
    LineStreamPrefix(lines, k);
  }

  /** The same for JSON lines: every line comes out once, in order, however the stream is cut. */
  lemma LinesRoundTrip(lines: seq<seq<byte>>, chunks: seq<seq<byte>>)
    requires PlainLines(lines) && OpensJson(lines) && Flatten(chunks) == Reads.Joined(lines)
    ensures W.FeedAll(W.FRESH, chunks) == W.Fed(W.State(W.JsonLines, [], None), lines, 0, false)
  {
    var s := Reads.Joined(lines);
    W.FreshIsSettled();
    forall k | 0 <= k <= |s|
      ensures !W.Feed(W.FRESH, s[..k]).cleared
    {
      if k == 0 {
        assert s[..k] == [];
      } else {
        LineStreamFeed(lines, k);
      }
    }
    W.CalmIndependence(W.FRESH, chunks);
    assert s[..|s|] == s;
    LineStreamFeed(lines, |s|);
    LineStreamSplits(lines);
  }
}

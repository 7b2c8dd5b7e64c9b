/**
  One WebSocket frame at the head of a byte buffer (section 5.2 of RFC 6455),
  as the observing decoder reads it, and the draining of a whole buffer.
 */
module Frames {
  import opened Common
  import opened Bytes

  /** The largest message, line, handshake or buffered remainder: 64 MiB. */
  const MAX_MESSAGE: nat := 64 * 1024 * 1024

  datatype Parse =
    | Incomplete
    | Violation
    | Frame(final: bool, opcode: byte, payload: seq<byte>, size: nat)

  const CONTINUATION: byte := 0x0
  const TEXT: byte := 0x1
  const CLOSE: byte := 0x8
  const PING: byte := 0x9
  const PONG: byte := 0xa

  /** The fixed part of a frame: everything before its payload. */
  datatype Head =
    | Short
    | Bad
    | Head(final: bool, opcode: byte, masked: bool, start: nat, length: nat)

  /** Where the extended length ends, from the seven length bits of the second byte. */
  function LengthEnd(second: byte): (n: nat)
    ensures 2 <= n <= 10
  {
    var marker := second & 0x7f;
    if marker == 126 then 4 else if marker == 127 then 10 else 2
  }

  function PayloadLength(second: byte, extended: seq<byte>): nat {
    if extended == [] then (second & 0x7f) as nat else BigEndian(extended)
  }

  function ReadHead(p: seq<byte>): (h: Head)
    ensures h.Head? ==> 2 <= h.start <= 14 && h.length <= MAX_MESSAGE && (h.masked ==> 6 <= h.start)
  {
    if |p| < 2 then Short
    else if p[0] & 0x70 != 0 then Bad
    else if |p| < LengthEnd(p[1]) then Short
    else
      var end := LengthEnd(p[1]);
      var length := PayloadLength(p[1], p[2..end]);
      if length > MAX_MESSAGE then Bad
      else
        var masked := p[1] & 0x80 != 0;
        Head(p[0] & 0x80 != 0, p[0] & 0x0f, masked, if masked then end + 4 else end, length)
  }

  lemma HeadStable(p: seq<byte>, later: seq<byte>)
    requires !ReadHead(p).Short?
    ensures ReadHead(p + later) == ReadHead(p)
  {
    var q := p + later;
    assert q[0] == p[0] && q[1] == p[1];
    if p[0] & 0x70 == 0 {
      assert q[2..LengthEnd(p[1])] == p[2..LengthEnd(p[1])];
    }
  }

  /** The payload announced by a head, unmasked. */
  function Payload(h: Head, p: seq<byte>): (payload: seq<byte>)
    requires h.Head? && h.start + h.length <= |p| && (h.masked ==> 6 <= h.start)
    ensures |payload| == h.length
  {
    var body := p[h.start..h.start + h.length];
    if h.masked then Masked(body, p[h.start - 4..h.start]) else body
  }

  function ParseFrame(p: seq<byte>): (r: Parse)
    ensures r.Frame? ==> 2 <= r.size <= |p| && |r.payload| < r.size && |r.payload| <= MAX_MESSAGE
  {
    var h := ReadHead(p);
    match h
    case Short => Incomplete
    case Bad => Violation
    case Head(final, opcode, _, start, length) =>
      if |p| < start + length then Incomplete
      else Frame(final, opcode, Payload(h, p), start + length)
  }

  lemma SliceStable(p: seq<byte>, later: seq<byte>, lo: nat, hi: nat)
    requires lo <= hi <= |p|
    ensures (p + later)[lo..hi] == p[lo..hi]
  {
  }

  lemma PayloadStable(h: Head, p: seq<byte>, later: seq<byte>)
    requires h.Head? && h.start + h.length <= |p| && (h.masked ==> 6 <= h.start)
    ensures Payload(h, p + later) == Payload(h, p)
  {
    SliceStable(p, later, h.start, h.start + h.length);
    if h.masked {
      SliceStable(p, later, h.start - 4, h.start);
    }
  }

  /** A verdict on the head of a buffer is not changed by bytes that arrive later. */
  lemma ParseStable(p: seq<byte>, later: seq<byte>)
    requires !ParseFrame(p).Incomplete?
    ensures ParseFrame(p + later) == ParseFrame(p)
  {
    HeadStable(p, later);
    var h := ReadHead(p);
    if h.Head? {
      PayloadStable(h, p, later);
    }
  }

  /** What one complete frame does to the open fragmented text message. */
  datatype Accepted = Accepted(fragment: Option<seq<byte>>, messages: seq<seq<byte>>, failures: nat)

  function Accept(fragment: Option<seq<byte>>, final: bool, opcode: byte, payload: seq<byte>): (a: Accepted)
    requires |payload| <= MAX_MESSAGE
    requires fragment.Some? ==> |fragment.value| <= MAX_MESSAGE
    ensures a.fragment.Some? ==> |a.fragment.value| <= MAX_MESSAGE
  {
    if opcode == TEXT then
      if final then Accepted(fragment, [payload], 0) else Accepted(Some(payload), [], 0)
    else if opcode == CONTINUATION then
      if fragment.None? then Accepted(None, [], 1)
      else
        var whole := fragment.value + payload;
        if |whole| > MAX_MESSAGE then Accepted(None, [], 1)
        else if final then Accepted(None, [whole], 0)
        else Accepted(Some(whole), [], 0)
    else if opcode in {0x2, CLOSE, PING, PONG} then Accepted(fragment, [], 0)
    else Accepted(fragment, [], 1)
  }

  type Fragment = f: Option<seq<byte>> | f.Some? ==> |f.value| <= MAX_MESSAGE witness None

  datatype Drained = Drained(
    pending: seq<byte>,
    fragment: Fragment,
    messages: seq<seq<byte>>,
    failures: nat,
    cleared: bool)
  {
    /** The same outcome after an earlier part of the buffer produced its own output. */
    function After(messages': seq<seq<byte>>, failures': nat): Drained {
      this.(messages := messages' + messages, failures := failures' + failures)
    }
  }

  /** Take every complete frame off the buffer; a violation throws the buffer away. */
  function Drain(p: seq<byte>, fragment: Fragment): (d: Drained)
    decreases |p|
  {
    match ParseFrame(p)
    case Incomplete => Drained(p, fragment, [], 0, false)
    case Violation => Drained([], fragment, [], 1, true)
    case Frame(final, opcode, payload, size) =>
      var a := Accept(fragment, final, opcode, payload);
      Drain(p[size..], a.fragment).After(a.messages, a.failures)
  }

  /** Only a suffix is kept: nothing when a violation was met, otherwise an incomplete frame. */
  lemma {:induction false} DrainRest(p: seq<byte>, fragment: Fragment)
    ensures var d := Drain(p, fragment);
            && |d.pending| <= |p| && d.pending == p[|p| - |d.pending|..]
            && (d.cleared ==> d.pending == [] && d.failures > 0)
            && (!d.cleared ==> ParseFrame(d.pending).Incomplete?)
    decreases |p|
  {
    var f := ParseFrame(p);
    if f.Frame? {
      DrainRest(p[f.size..], Accept(fragment, f.final, f.opcode, f.payload).fragment);
    }
  }

  lemma AfterAfter(d: Drained, inner: seq<seq<byte>>, f: nat, outer: seq<seq<byte>>, g: nat)
    ensures d.After(inner, f).After(outer, g) == d.After(outer + inner, g + f)
  {
    assert outer + (inner + d.messages) == (outer + inner) + d.messages;
  }

  /** A complete frame at the head is taken off whatever follows it. */
  lemma DrainStep(p: seq<byte>, later: seq<byte>, fragment: Fragment)
    requires ParseFrame(p).Frame?
    ensures var f := ParseFrame(p);
            var a := Accept(fragment, f.final, f.opcode, f.payload);
            Drain(p + later, fragment) == Drain(p[f.size..] + later, a.fragment).After(a.messages, a.failures)
  {
    ParseStable(p, later);
    assert (p + later)[ParseFrame(p).size..] == p[ParseFrame(p).size..] + later;
  }

  /** Taking one frame off adds its output to what came before. */
  lemma DrainOne(p: seq<byte>, fragment: Fragment, messages: seq<seq<byte>>, failures: nat)
    requires ParseFrame(p).Frame?
    ensures var f := ParseFrame(p);
            var a := Accept(fragment, f.final, f.opcode, f.payload);
            Drain(p, fragment).After(messages, failures) ==
            Drain(p[f.size..], a.fragment).After(messages + a.messages, failures + a.failures)
  {
    var f := ParseFrame(p);
    var a := Accept(fragment, f.final, f.opcode, f.payload);
    AfterAfter(Drain(p[f.size..], a.fragment), a.messages, a.failures, messages, failures);
  }

  /** Draining a prefix first and the rest later is draining everything at once. */
  lemma {:induction false} DrainSplit(p: seq<byte>, later: seq<byte>, fragment: Fragment)
    requires !Drain(p, fragment).cleared
    ensures var d := Drain(p, fragment);
            Drain(p + later, fragment) == Drain(d.pending + later, d.fragment).After(d.messages, d.failures)
    decreases |p|
  {
    var f := ParseFrame(p);
    if f.Incomplete? {
      var rest := Drain(p + later, fragment);
      assert [] + rest.messages == rest.messages;
    } else {
      var a := Accept(fragment, f.final, f.opcode, f.payload);
      var d := Drain(p[f.size..], a.fragment);
      assert Drain(p, fragment) == d.After(a.messages, a.failures);
      DrainStep(p, later, fragment);
      DrainSplit(p[f.size..], later, a.fragment);
      AfterAfter(Drain(d.pending + later, d.fragment), d.messages, d.failures, a.messages, a.failures);
    }
  }

  /** Once a violation is met, everything behind it is thrown away with it. */
  lemma {:induction false} DrainCleared(p: seq<byte>, later: seq<byte>, fragment: Fragment)
    requires Drain(p, fragment).cleared
    ensures Drain(p + later, fragment) == Drain(p, fragment)
    decreases |p|
  {
    ParseStable(p, later);
    match ParseFrame(p)
    case Violation =>
    case Frame(final, opcode, payload, size) =>
      assert (p + later)[size..] == p[size..] + later;
      DrainCleared(p[size..], later, Accept(fragment, final, opcode, payload).fragment);
  }
}

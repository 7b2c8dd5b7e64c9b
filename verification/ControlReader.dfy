/**
  The control client's own reader: one frame at a time off the socket, text
  messages reassembled, pings answered. It is written independently of the
  observing decoder, and the two are compared here.
 */
module ControlReader {
  import opened Common
  import opened Bytes
  import opened Frames
  import Encoders

  datatype ReadError = Exhausted | ReservedBits | TooLong | PeerClosed | OversizedControl

  const PONG_MASK: seq<byte> := [0x13, 0x57, 0x9b, 0xdf]

  /** What reading one message comes to: the message and the bytes behind it, or the reason it stopped. */
  datatype Read =
    | Message(text: seq<byte>, rest: seq<byte>, pongs: seq<seq<byte>>)
    | Stopped(pongs: seq<seq<byte>>)

  function Answered(r: Read, frame: seq<byte>): Read {
    match r
    case Message(text, rest, pongs) => Message(text, rest, [frame] + pongs)
    case Stopped(pongs) => Stopped([frame] + pongs)
  }

  function ReadMessage(s: seq<byte>, fragments: seq<byte>): Read
    decreases |s|
  {
    match ParseFrame(s)
    case Incomplete => Stopped([])
    case Violation => Stopped([])
    case Frame(final, opcode, payload, size) =>
      if opcode == TEXT || (opcode == CONTINUATION && fragments != []) then
        var whole := if opcode == TEXT then payload else fragments + payload;
        if |whole| > MAX_MESSAGE then Stopped([])
        else if final then Message(whole, s[size..], [])
        else ReadMessage(s[size..], whole)
      else if opcode == CLOSE then Stopped([])
      else if opcode == PING then
        if |payload| > 125 then Stopped([])
        else Answered(ReadMessage(s[size..], fragments), Encoders.MaskedFrame(PONG, PONG_MASK, payload))
      else ReadMessage(s[size..], fragments)
  }

  function Behind(sent: seq<seq<byte>>, r: Read): Read {
    match r
    case Message(text, rest, pongs) => Message(text, rest, sent + pongs)
    case Stopped(pongs) => Stopped(sent + pongs)
  }

  lemma BehindAnswered(sent: seq<seq<byte>>, r: Read, frame: seq<byte>)
    ensures Behind(sent, Answered(r, frame)) == Behind(sent + [frame], r)
  {
    assert sent + ([frame] + r.pongs) == sent + [frame] + r.pongs;
  }

  lemma {:induction false} ReadShrinks(s: seq<byte>, fragments: seq<byte>)
    ensures var r := ReadMessage(s, fragments); r.Message? ==> |r.rest| < |s|
    decreases |s|
  {
    var f := ParseFrame(s);
    if f.Frame? {
      ReadShrinks(s[f.size..], fragments);
      ReadShrinks(s[f.size..], f.payload);
      ReadShrinks(s[f.size..], fragments + f.payload);
    }
  }

  /** Reading message after message until the reader stops. */
  function ReadAll(s: seq<byte>, fragments: seq<byte>): seq<seq<byte>>
    decreases |s|
  {
    var r := ReadMessage(s, fragments);
    if r.Message? && |r.rest| < |s| then [r.text] + ReadAll(r.rest, []) else []
  }

  class RpcClient {
    /** Bytes the peer still delivers before the deadline. */
    var input: seq<byte>
    /** Frames written to the peer. */
    var output: seq<seq<byte>>

    constructor (bytes: seq<byte>)
      ensures input == bytes && output == []
    {
      input, output := bytes, [];
    }

    method ReadExact(n: nat) returns (r: Result<seq<byte>, ReadError>)
      modifies this`input
      ensures r.Ok? <==> n <= |old(input)|
      ensures r.Ok? ==> r.value == old(input)[..n] && input == old(input)[n..]
      ensures r.Err? ==> r.error == Exhausted
    {
      if |input| < n {
        input := [];
        return Err(Exhausted);
      }
      r := Ok(input[..n]);
      input := input[n..];
    }

    /** Accepts exactly the frames the observing decoder accepts, with the same contents and the same end. */
    method ReadFrame() returns (r: Result<(bool, byte, seq<byte>), ReadError>)
      modifies this`input
      ensures var f := ParseFrame(old(input));
              && (f.Frame? <==> r.Ok?)
              && (f.Incomplete? <==> r == Err(Exhausted))
              && (f.Frame? ==> r.value == (f.final, f.opcode, f.payload) && input == old(input)[f.size..])
    {
      ghost var s := input;
      ghost var h := ReadHead(s);
      var head := ReadLength();
      if head.Err? {
        return Err(head.error);
      }
      var (first, masked, length) := head.value;
      ghost var at := if masked then h.start - 4 else h.start;
      r := ReadBody(first, masked, length);
      if r.Ok? {
        if masked {
          assert s[at..][4..4 + length] == s[h.start..h.start + length];
          assert s[at..][..4] == s[at..h.start];
        }
        assert Payload(h, s) == r.value.2;
      }
    }

    /** The two fixed bytes and the extended length; the key is not read yet. */
    method ReadLength() returns (r: Result<(byte, bool, nat), ReadError>)
      modifies this`input
      ensures var s := old(input); var h := ReadHead(s);
              && (r.Ok? <==> h.Head?)
              && (h.Short? <==> r == Err(Exhausted))
              && (h.Head? ==>
                    && (r.value.0 & 0x80 != 0) == h.final && r.value.0 & 0x0f == h.opcode
                    && r.value.1 == h.masked && r.value.2 == h.length
                    && input == s[if h.masked then h.start - 4 else h.start..])
    {
      ghost var s := input;
      var head := ReadExact(2);
      if head.Err? {
        return Err(Exhausted);
      }
      var first, second := head.value[0], head.value[1];
      if first & 0x70 != 0 {
        return Err(ReservedBits);
      }
      var length := (second & 0x7f) as nat;
      if length == 126 || length == 127 {
        var extended := ReadExact(if length == 126 then 2 else 8);
        if extended.Err? {
          return Err(Exhausted);
        }
        assert extended.value == s[2..LengthEnd(second)];
        length := BigEndian(extended.value);
      }
      if length > MAX_MESSAGE {
        return Err(TooLong);
      }
      return Ok((first, second & 0x80 != 0, length));
    }

    method ReadBody(first: byte, masked: bool, length: nat)
      returns (r: Result<(bool, byte, seq<byte>), ReadError>)
      modifies this`input
      ensures var start: nat := if masked then 4 else 0; var s := old(input);
              && (r.Ok? <==> |s| >= start + length)
              && (r.Err? ==> r.error == Exhausted)
              && (r.Ok? ==>
                    && r.value.0 == (first & 0x80 != 0) && r.value.1 == first & 0x0f
                    && r.value.2 == (if masked then Masked(s[4..4 + length], s[..4]) else s[..length])
                    && input == s[start + length..])
    {
      var mask: seq<byte> := [0, 0, 0, 0];
      if masked {
        var key := ReadExact(4);
        if key.Err? {
          return Err(Exhausted);
        }
        mask := key.value;
      }
      var body := ReadExact(length);
      if body.Err? {
        return Err(Exhausted);
      }
      var payload := body.value;
      if masked {
        payload := Unmask(payload, mask);
      }
      return Ok((first & 0x80 != 0, first & 0x0f, payload));
    }

    method SendControlFrame(opcode: byte, payload: seq<byte>) returns (r: Result<(), ReadError>)
      modifies this`output
      ensures r.Err? <==> |payload| > 125
      ensures r.Ok? ==> output == old(output) + [Encoders.MaskedFrame(opcode, PONG_MASK, payload)]
      ensures r.Err? ==> output == old(output)
    {
      if |payload| > 125 {
        return Err(OversizedControl);
      }
      var frame: seq<byte> := [0x80 | opcode, 0x80 | |payload| as byte];
      frame := frame + PONG_MASK;
      frame := frame + Masked(payload, PONG_MASK);
      assert frame == Encoders.MaskedFrame(opcode, PONG_MASK, payload);
      output := output + [frame];
      return Ok(());
    }

    method ReadJson() returns (r: Result<seq<byte>, ReadError>)
      modifies this
      ensures var spec := ReadMessage(old(input), []);
              && (r.Ok? <==> spec.Message?)
              && (r.Ok? ==> r.value == spec.text && input == spec.rest)
              && output == old(output) + spec.pongs
    {
      var fragments: seq<byte> := [];
      ghost var sent: seq<seq<byte>> := [];
      ghost var spec := ReadMessage(input, []);
      while true
        invariant output == old(output) + sent
        invariant spec == Behind(sent, ReadMessage(input, fragments))
        decreases |input|
      {
        ghost var now := ReadMessage(input, fragments);
        var frame := ReadFrame();
        if frame.Err? {
          return Err(frame.error);
        }
        var (final, opcode, payload) := frame.value;
        if opcode == TEXT {
          fragments := payload;
        } else if opcode == CONTINUATION && fragments != [] {
          fragments := fragments + payload;
        } else if opcode == CLOSE {
          return Err(PeerClosed);
        } else if opcode == PING {
          var pong := SendControlFrame(PONG, payload);
          if pong.Err? {
            return Err(OversizedControl);
          }
          BehindAnswered(sent, ReadMessage(input, fragments), Encoders.MaskedFrame(PONG, PONG_MASK, payload));
          sent := sent + [Encoders.MaskedFrame(PONG, PONG_MASK, payload)];
          continue;
        } else {
          continue;
        }
        if |fragments| > MAX_MESSAGE {
          return Err(TooLong);
        }
        if final {
          return Ok(fragments);
        }
      }
    }
  }

  // ---------------------------------------------------------------- agreement of the two decoders

  /**
    Complete frames in an order sections 5.4 and 5.5 of RFC 6455 allow, without
    a close frame: fragments of one message are not interleaved with another,
    control frames are final and short, no message exceeds the limit.
   */
  predicate Legal(s: seq<byte>, fragment: Fragment)
    decreases |s|
  {
    match ParseFrame(s)
    case Incomplete => s == [] && fragment.None?
    case Violation => false
    case Frame(final, opcode, payload, size) =>
      if opcode == TEXT then
        fragment.None? && Legal(s[size..], if final then None else Some(payload))
      else if opcode == CONTINUATION then
        && fragment.Some?
        && |fragment.value + payload| <= MAX_MESSAGE
        && Legal(s[size..], if final then None else Some(fragment.value + payload))
      else if opcode == PING || opcode == PONG then
        final && |payload| <= 125 && Legal(s[size..], fragment)
      else false
  }

  /** How many messages open with an empty fragment. */
  function EmptyOpenings(s: seq<byte>): nat
    decreases |s|
  {
    match ParseFrame(s)
    case Incomplete => 0
    case Violation => 0
    case Frame(final, opcode, payload, size) =>
      EmptyOpenings(s[size..]) + if opcode == TEXT && !final && payload == [] then 1 else 0
  }

  /** A message of a legal stream, and whether its first fragment was empty. */
  datatype Heard = Heard(text: seq<byte>, openedEmpty: bool)

  /** The messages of a legal stream, the open one included; `empty` tells of the open one how it began. */
  function HeardIn(s: seq<byte>, fragment: Fragment, empty: bool): seq<Heard>
    decreases |s|
  {
    match ParseFrame(s)
    case Incomplete => []
    case Violation => []
    case Frame(final, opcode, payload, size) =>
      if opcode == TEXT then
        if final then [Heard(payload, false)] + HeardIn(s[size..], None, false)
        else HeardIn(s[size..], Some(payload), payload == [])
      else if opcode == CONTINUATION && fragment.Some? && |fragment.value + payload| <= MAX_MESSAGE then
        if final then [Heard(fragment.value + payload, empty)] + HeardIn(s[size..], None, false)
        else HeardIn(s[size..], Some(fragment.value + payload), empty)
      else HeardIn(s[size..], fragment, empty)
  }

  function Texts(heard: seq<Heard>): seq<seq<byte>> {
    if heard == [] then [] else [heard[0].text] + Texts(heard[1..])
  }

  /** All but the messages that began with an empty fragment. */
  function Kept(heard: seq<Heard>): seq<Heard> {
    if heard == [] then []
    else (if heard[0].openedEmpty then [] else [heard[0]]) + Kept(heard[1..])
  }

  function CountEmpty(heard: seq<Heard>): nat {
    if heard == [] then 0 else (if heard[0].openedEmpty then 1 else 0) + CountEmpty(heard[1..])
  }

  lemma HeardFirst(m: Heard, later: seq<Heard>)
    ensures Texts([m] + later) == [m.text] + Texts(later)
    ensures Kept([m] + later) == (if m.openedEmpty then [] else [m]) + Kept(later)
    ensures CountEmpty([m] + later) == (if m.openedEmpty then 1 else 0) + CountEmpty(later)
  {
    assert ([m] + later)[1..] == later;
  }

  /** The observing decoder extracts all of them. */
  lemma {:induction false} ObservedAreHeard(s: seq<byte>, fragment: Fragment, empty: bool)
    requires Legal(s, fragment)
    ensures Drain(s, fragment).messages == Texts(HeardIn(s, fragment, empty))
    decreases |s|
  {
    var f := ParseFrame(s);
    if f.Frame? {
      var rest, a := s[f.size..], Accept(fragment, f.final, f.opcode, f.payload);
      if f.opcode == TEXT && f.final {
        HeardFirst(Heard(f.payload, false), HeardIn(rest, None, false));
        ObservedAreHeard(rest, None, false);
      } else if f.opcode == CONTINUATION && f.final {
        HeardFirst(Heard(fragment.value + f.payload, empty), HeardIn(rest, None, false));
        ObservedAreHeard(rest, None, false);
      } else {
        ObservedAreHeard(rest, a.fragment, if f.opcode == TEXT then f.payload == [] else empty);
      }
    }
  }

  /** What the reader holds of the open message: nothing when that began with an empty fragment. */
  predicate Holds(fragment: Fragment, empty: bool, fragments: seq<byte>) {
    if fragment.None? || empty then fragments == []
    else fragments != [] && fragments == fragment.value
  }

  /** The reader extracts those that did not begin with an empty fragment. */
  lemma {:induction false} ReadAreKept(s: seq<byte>, fragment: Fragment, empty: bool, fragments: seq<byte>)
    requires Legal(s, fragment) && Holds(fragment, empty, fragments)
    ensures ReadAll(s, fragments) == Texts(Kept(HeardIn(s, fragment, empty)))
    decreases |s|
  {
    var f := ParseFrame(s);
    if f.Frame? {
      var rest := s[f.size..];
      if f.opcode == TEXT {
        TextIsRead(s, fragment, empty, fragments);
      } else if f.opcode == CONTINUATION {
        ContinuationIsRead(s, fragment, empty, fragments);
      } else {
        ReadAreKept(rest, fragment, empty, fragments);
        SkipFrame(s, fragments, fragments);
      }
    }
  }

  lemma {:induction false} TextIsRead(s: seq<byte>, fragment: Fragment, empty: bool, fragments: seq<byte>)
    requires Legal(s, fragment) && Holds(fragment, empty, fragments)
    requires ParseFrame(s).Frame? && ParseFrame(s).opcode == TEXT
    ensures ReadAll(s, fragments) == Texts(Kept(HeardIn(s, fragment, empty)))
    decreases |s|, 0
  {
    var f := ParseFrame(s);
    var rest := s[f.size..];
    if f.final {
      ReadAreKept(rest, None, false, []);
      FirstIsKept(Heard(f.payload, false), HeardIn(rest, None, false));
    } else {
      ReadAreKept(rest, Some(f.payload), f.payload == [], f.payload);
      SkipFrame(s, fragments, f.payload);
    }
  }

  lemma {:induction false} ContinuationIsRead(s: seq<byte>, fragment: Fragment, empty: bool, fragments: seq<byte>)
    requires Legal(s, fragment) && Holds(fragment, empty, fragments)
    requires ParseFrame(s).Frame? && ParseFrame(s).opcode == CONTINUATION
    ensures ReadAll(s, fragments) == Texts(Kept(HeardIn(s, fragment, empty)))
    decreases |s|, 0
  {
    var f := ParseFrame(s);
    var rest := s[f.size..];
    var whole := fragment.value + f.payload;
    if f.final {
      ReadAreKept(rest, None, false, []);
      FirstIsKept(Heard(whole, empty), HeardIn(rest, None, false));
      if empty {
        SkipFrame(s, fragments, []);
      }
    } else {
      ReadAreKept(rest, Some(whole), empty, if empty then [] else whole);
      SkipFrame(s, fragments, if empty then [] else whole);
    }
  }

  lemma FirstIsKept(m: Heard, later: seq<Heard>)
    ensures Texts(Kept([m] + later)) == (if m.openedEmpty then [] else [m.text]) + Texts(Kept(later))
  {
    HeardFirst(m, later);
    HeardFirst(m, Kept(later));
    assert [] + Kept(later) == Kept(later);
  }

  lemma {:induction false} EmptyOpeningsAreHeard(s: seq<byte>, fragment: Fragment, empty: bool)
    requires Legal(s, fragment)
    ensures CountEmpty(HeardIn(s, fragment, empty)) == EmptyOpenings(s) + if fragment.Some? && empty then 1 else 0
    decreases |s|
  {
    var f := ParseFrame(s);
    if f.Frame? {
      var rest, a := s[f.size..], Accept(fragment, f.final, f.opcode, f.payload);
      if f.opcode == TEXT && f.final {
        HeardFirst(Heard(f.payload, false), HeardIn(rest, None, false));
        EmptyOpeningsAreHeard(rest, None, false);
      } else if f.opcode == CONTINUATION && f.final {
        HeardFirst(Heard(fragment.value + f.payload, empty), HeardIn(rest, None, false));
        EmptyOpeningsAreHeard(rest, None, false);
      } else {
        EmptyOpeningsAreHeard(rest, a.fragment, if f.opcode == TEXT then f.payload == [] else empty);
      }
    }
  }

  lemma {:induction false} KeptCount(heard: seq<Heard>)
    ensures |Texts(Kept(heard))| + CountEmpty(heard) == |Texts(heard)|
    ensures CountEmpty(heard) == 0 ==> Kept(heard) == heard
    decreases |heard|
  {
    if heard != [] {
      assert heard == [heard[0]] + heard[1..];
      KeptCount(heard[1..]);
      FirstIsKept(heard[0], heard[1..]);
    }
  }

  /**
    On every legal stream the observing decoder extracts all messages, and the
    reader exactly those that do not begin with an empty fragment, in order.
   */
  lemma CompareDecoders(s: seq<byte>)
    requires Legal(s, None)
    ensures Drain(s, None).messages == Texts(HeardIn(s, None, false))
    ensures ReadAll(s, []) == Texts(Kept(HeardIn(s, None, false)))
    ensures CountEmpty(HeardIn(s, None, false)) == EmptyOpenings(s)
  {
    ObservedAreHeard(s, None, false);
    ReadAreKept(s, None, false, []);
    EmptyOpeningsAreHeard(s, None, false);
  }

  /** A frame that ends no message for the reader leaves its later messages as they are. */
  lemma SkipFrame(s: seq<byte>, fragments: seq<byte>, kept: seq<byte>)
    requires ParseFrame(s).Frame?
    requires var r, t := ReadMessage(s, fragments), ReadMessage(s[ParseFrame(s).size..], kept);
             r.Message? == t.Message? && (r.Message? ==> r.text == t.text && r.rest == t.rest)
    ensures ReadAll(s, fragments) == ReadAll(s[ParseFrame(s).size..], kept)
  {
    ReadShrinks(s, fragments);
    ReadShrinks(s[ParseFrame(s).size..], kept);
  }

  lemma {:induction false} LegalIsClean(s: seq<byte>, fragment: Fragment)
    requires Legal(s, fragment)
    ensures var d := Drain(s, fragment); d.pending == [] && d.fragment.None? && d.failures == 0 && !d.cleared
    decreases |s|
  {
    var f := ParseFrame(s);
    if f.Frame? {
      LegalIsClean(s[f.size..], Accept(fragment, f.final, f.opcode, f.payload).fragment);
    }
  }

  /**
    On every legal stream the two decoders extract the same messages exactly
    when no fragmented message opens with an empty frame; the observing decoder
    then reports no failure and keeps nothing back.
   */
  lemma DecodersAgree(s: seq<byte>)
    requires Legal(s, None)
    ensures Drain(s, None).messages == ReadAll(s, []) <==> EmptyOpenings(s) == 0
    ensures var d := Drain(s, None); d.pending == [] && d.fragment.None? && d.failures == 0 && !d.cleared
  {
    CompareDecoders(s);
    KeptCount(HeardIn(s, None, false));
    LegalIsClean(s, None);
  }
}

/**
  The decoder as the object it is: bytes are appended to `pending`, complete
  lines or frames are taken off its front, and `fragmentedText` collects an
  unfinished text message. Every method is tied to the functions of Wire.dfy.
 */
module WireBuffers {
  import opened Common
  import opened Bytes
  import opened Frames
  import W = Wire

  class WireBuffer {
    var mode: W.WireMode
    var pending: seq<byte>
    var fragmentedText: Fragment

    constructor ()
      ensures View() == W.FRESH
    {
      mode, pending, fragmentedText := W.Unknown, [], None;
    }

    function View(): W.State
      reads this
    {
      W.State(mode, pending, fragmentedText)
    }

    method Feed(bytes: seq<byte>) returns (messages: seq<seq<byte>>, failures: nat)
      modifies this
      ensures var f := W.Feed(old(View()), bytes);
              View() == f.state && messages == f.messages && failures == f.failures
      ensures |pending| <= 67108864
    {
      pending := pending + bytes;
      SettleMode();
      messages, failures := ExtractMessages();
      if |pending| > MAX_MESSAGE {
        pending := [];
        fragmentedText := None;
        failures := failures + 1;
      }
    }

    /** Detect the mode if it is open, and step over a complete handshake. */
    method SettleMode()
      modifies this`mode, this`pending
      ensures View() == W.Settle(old(View()))
    {
      if mode.Unknown? {
        DetectMode();
      }
      var end := W.FindTerminator(pending);
      if mode.WebSocketHandshake? && end.Some? {
        W.TerminatorIsThere(pending);
        pending := pending[end.value + 4..];
        mode := W.WebSocketFrames;
      }
    }

    method ExtractMessages() returns (messages: seq<seq<byte>>, failures: nat)
      modifies this`pending, this`fragmentedText
      ensures var f := W.Extract(old(View()));
              View() == f.state && messages == f.messages && failures == f.failures
    {
      messages, failures := [], 0;
      match mode {
        case JsonLines => messages := TakeLines();
        case WebSocketFrames => messages, failures := DrainWebsocketFrames();
        case _ =>
      }
    }

    method DetectMode()
      requires mode.Unknown?
      modifies this`mode
      ensures mode == W.Detect(pending)
    {
      var start := W.SkipSpace(pending);
      if W.GET <= start || W.HTTP <= start {
        mode := W.WebSocketHandshake;
      } else if (start != [] && start[0] == W.BRACE) || (start != [] && start[0] == W.BRACKET)
                || (|start| >= 5 && !(start <= W.GET) && !(start <= W.HTTP)) {
        mode := W.JsonLines;
      }
    }

    method TakeLines() returns (messages: seq<seq<byte>>)
      modifies this`pending
      ensures messages == W.SplitLines(old(pending)).lines
      ensures pending == W.SplitLines(old(pending)).rest
    {
      messages := [];
      var newline := W.LineEnd(pending);
      while newline < |pending|
        invariant newline == W.LineEnd(pending) <= |pending|
        invariant W.SplitLines(old(pending)) == W.SplitLines(pending).Behind(messages)
        decreases |pending|
      {
        W.LinesUnfold(pending);
        W.FirstLine(W.SplitLines(pending), W.SplitLines(pending[newline + 1..]), pending[..newline], messages);
        messages := messages + [pending[..newline]];
        pending := pending[newline + 1..];
        newline := W.LineEnd(pending);
      }
    }

    method DrainWebsocketFrames() returns (messages: seq<seq<byte>>, failures: nat)
      modifies this`pending, this`fragmentedText
      ensures var d := Drain(old(pending), old(fragmentedText));
              pending == d.pending && fragmentedText == d.fragment && messages == d.messages && failures == d.failures
    {
      messages, failures := [], 0;
      ghost var all := Drain(pending, fragmentedText);
      assert all == all.After([], 0);
      while true
        invariant all == Drain(pending, fragmentedText).After(messages, failures)
        decreases |pending|
      {
        ghost var before, open := pending, fragmentedText;
        var frame := TakeFrame();
        if frame.Incomplete? {
          break;
        }
        if frame.Violation? {
          failures := failures + 1;
          return;
        }
        DrainOne(before, open, messages, failures);
        var extracted, failed := AcceptFrame(frame.final, frame.opcode, frame.payload);
        messages, failures := messages + extracted, failures + failed;
      }
    }

    /** Take one complete frame off the front and unmask it, or throw everything away. */
    method TakeFrame() returns (frame: Parse)
      modifies this`pending
      ensures frame == ParseFrame(old(pending))
      ensures frame.Incomplete? ==> pending == old(pending)
      ensures frame.Violation? ==> pending == []
      ensures frame.Frame? ==> pending == old(pending)[frame.size..]
    {
      var head := ReadHead(pending);
      if head.Short? {
        return Incomplete;
      }
      if head.Bad? {
        pending := [];
        return Violation;
      }
      var frameLength := head.start + head.length;
      if |pending| < frameLength {
        return Incomplete;
      }
      var payload := pending[head.start..frameLength];
      if head.masked {
        payload := Unmask(payload, pending[head.start - 4..head.start]);
      }
      pending := pending[frameLength..];
      frame := Frame(head.final, head.opcode, payload, frameLength);
    }

    /** Fragmentation per section 5.4 of RFC 6455; control and binary frames carry no message. */
    method AcceptFrame(final: bool, opcode: byte, payload: seq<byte>)
      returns (messages: seq<seq<byte>>, failures: nat)
      requires |payload| <= MAX_MESSAGE
      modifies this`fragmentedText
      ensures var a := Accept(old(fragmentedText), final, opcode, payload);
              fragmentedText == a.fragment && messages == a.messages && failures == a.failures
    {
      messages, failures := [], 0;
      if opcode == TEXT {
        if final {
          messages := [payload];
        } else {
          fragmentedText := Some(payload);
        }
      } else if opcode == CONTINUATION {
        if fragmentedText.None? {
          failures := 1;
        } else {
          var whole := fragmentedText.value + payload;
          if |whole| > MAX_MESSAGE {
            fragmentedText := None;
            failures := 1;
          } else if final {
            messages := [whole];
            fragmentedText := None;
          } else {
            fragmentedText := Some(whole);
          }
        }
      } else if opcode !in {0x2, CLOSE, PING, PONG} {
        failures := 1;
      }
    }
  }
}

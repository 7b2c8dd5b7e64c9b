/**
  What the control client reads off a sequence of frames, and what it answers,
  declared by looking at the frames alone.
 */
module ControlReading {
  import opened Common
  import opened Bytes
  import opened Frames
  import opened Picks
  import opened Fragments
  import opened ControlReader
  import Encoders

  /** The last text frame before n stands at i. */
  predicate LastText(fs: Pieces, i: nat, n: nat) {
    i < n <= |fs| && fs[i].opcode == 1 && forall l | i < l < n :: fs[l].opcode != 1
  }

  /** And it was not empty: the reader takes continuations of it. */
  predicate Listens(fs: Pieces, i: nat, n: nat) {
    LastText(fs, i, n) && fs[i].payload != []
  }

  /** The message is complete with frame j, and this is its text. */
  predicate Finishes(fs: Pieces, j: nat, text: seq<byte>) {
    && j < |fs| && fs[j].final && |text| <= 67108864
    && if fs[j].opcode == 1 then text == fs[j].payload
       else fs[j].opcode == 0 && exists i: nat :: i < j && Listens(fs, i, j) && text == Collected(fs, i, j + 1)
  }

  predicate TooLongAt(fs: Pieces, i: nat, j: nat) {
    j < |fs| && Listens(fs, i, j) && |Collected(fs, i, j + 1)| > 67108864
  }

  /** Frame j ends the reading without a message: a close, too long a ping, too long a message. */
  predicate Breaks(fs: Pieces, j: nat) {
    && j < |fs|
    && if fs[j].opcode == 0 then exists i: nat :: i < j && TooLongAt(fs, i, j)
       else fs[j].opcode == 8 || (fs[j].opcode == 9 && |fs[j].payload| > 125)
  }

  ghost predicate GoesOn(fs: Pieces, j: nat) {
    !Breaks(fs, j) && forall text :: !Finishes(fs, j, text)
  }

  predicate IsPing(fs: Pieces, j: nat) {
    j < |fs| && fs[j].opcode == 9
  }

  function PingAt(fs: Pieces): nat -> bool {
    (j: nat) => IsPing(fs, j)
  }

  /** A pong with the payload of its ping (section 5.5.3 of RFC 6455). */
  predicate Answers(pong: seq<byte>, payload: seq<byte>) {
    ParseFrame(pong) == Frame(true, 0xa, payload, |pong|)
  }

  /** One pong for each ping among the first n frames, in order. */
  predicate AreAnswers(fs: Pieces, n: nat, pongs: seq<seq<byte>>) {
    && |pongs| == |Places(n, PingAt(fs))|
    && forall k | 0 <= k < |pongs| :: AnswersPing(fs, Places(n, PingAt(fs))[k], pongs[k])
  }

  predicate AnswersPing(fs: Pieces, j: nat, pong: seq<byte>) {
    j < |fs| && Answers(pong, fs[j].payload)
  }

  /** What stands behind the first k frames. */
  function Behind(s: seq<byte>, k: nat): seq<byte>
    decreases k
  {
    var f := ParseFrame(s);
    if k == 0 || !f.Frame? then s else Behind(s[f.size..], k - 1)
  }

  // ---------------------------------------------------------------- what the reader holds

  /** The reader's fragments after n frames that decide nothing. */
  function Held(fs: Pieces, n: nat): seq<byte>
    requires n <= |fs|
  {
    if n == 0 then []
    else if fs[n - 1].opcode == TEXT then fs[n - 1].payload
    else if fs[n - 1].opcode == CONTINUATION && Held(fs, n - 1) != [] then Held(fs, n - 1) + fs[n - 1].payload
    else Held(fs, n - 1)
  }

  predicate IsHeld(fs: Pieces, n: nat, held: seq<byte>)
    requires n <= |fs|
  {
    if held == [] then forall i: nat | i < n :: !Listens(fs, i, n)
    else exists i: nat :: i < n && Listens(fs, i, n) && held == Collected(fs, i, n)
  }

  lemma {:induction false} HeldIsDeclared(fs: Pieces, n: nat)
    requires n <= |fs|
    ensures IsHeld(fs, n, Held(fs, n))
    decreases n
  {
    if n > 0 {
      HeldIsDeclared(fs, n - 1);
      HeldNext(fs, n - 1);
    }
  }

  lemma HeldNext(fs: Pieces, n: nat)
    requires n < |fs| && IsHeld(fs, n, Held(fs, n))
    ensures IsHeld(fs, n + 1, Held(fs, n + 1))
  {
    forall i: nat | i <= n {
      ListensNext(fs, i, n);
    }
    if fs[n].opcode == 1 {
      assert Collected(fs, n, n + 1) == fs[n].payload;
    } else if Held(fs, n) != [] {
      var i: nat :| i < n && Listens(fs, i, n) && Held(fs, n) == Collected(fs, i, n);
      assert Listens(fs, i, n + 1) && |Held(fs, n + 1)| >= |Held(fs, n)|;
      assert Collected(fs, i, n + 1) == Collected(fs, i, n) + if Continues(fs, n) then fs[n].payload else [];
    } else {
      var m := n + 1;
      forall i: nat | i < m
        ensures !Listens(fs, i, m)
      {
        assert i < n ==> !Listens(fs, i, n);
      }
    }
  }

  lemma ListensNext(fs: Pieces, i: nat, n: nat)
    requires i <= n < |fs|
    ensures Listens(fs, i, n + 1) <==>
            if fs[n].opcode == 1 then i == n && fs[n].payload != [] else i < n && Listens(fs, i, n)
  {
  }

  lemma ListensToOne(fs: Pieces, i: nat, k: nat, n: nat)
    requires Listens(fs, i, n) && Listens(fs, k, n)
    ensures i == k
  {
  }

  /** What the reader does with frame n, given what it holds. */
  lemma Decision(fs: Pieces, n: nat)
    requires n < |fs|
    ensures var f, held := fs[n], Held(fs, n);
            var takes := f.opcode == TEXT || (f.opcode == CONTINUATION && held != []);
            var whole := if f.opcode == TEXT then f.payload else held + f.payload;
            && (Breaks(fs, n) <==>
                  || f.opcode == CLOSE || (f.opcode == PING && |f.payload| > 125)
                  || (takes && |whole| > MAX_MESSAGE))
            && (takes && |whole| <= MAX_MESSAGE && f.final ==> Finishes(fs, n, whole))
            && (!takes || |whole| > MAX_MESSAGE || !f.final ==> forall text :: !Finishes(fs, n, text))
  {
    HeldIsDeclared(fs, n);
    if fs[n].opcode == 0 && Held(fs, n) != [] {
      var i: nat :| i < n && Listens(fs, i, n) && Held(fs, n) == Collected(fs, i, n);
      assert Collected(fs, i, n + 1) == Held(fs, n) + fs[n].payload;
      forall k: nat | k < n && Listens(fs, k, n)
        ensures k == i
      {
        ListensToOne(fs, i, k, n);
      }
      assert TooLongAt(fs, i, n) <==> |Collected(fs, i, n + 1)| > 67108864;
    }
  }

  // ---------------------------------------------------------------- one message

  /** Reading went on up to frame j, which decides, or to the end; and every ping up to there was answered. */
  ghost predicate ReadUpTo(fs: Pieces, n: nat, j: nat, s: seq<byte>, sent: seq<seq<byte>>, r: Read) {
    && n <= j <= |fs|
    && (forall l: nat | n <= l < j :: GoesOn(fs, l))
    && (if j == |fs| then r.Stopped? else !GoesOn(fs, j))
    && (r.Stopped? ==> j == |fs| || Breaks(fs, j))
    && (r.Message? ==> Finishes(fs, j, r.text) && r.rest == Behind(s, j + 1 - n))
    && AreAnswers(fs, j, sent + r.pongs)
  }

  lemma AnswersNext(fs: Pieces, n: nat, pongs: seq<seq<byte>>)
    requires n < |fs| && AreAnswers(fs, n, pongs)
    ensures !IsPing(fs, n) ==> AreAnswers(fs, n + 1, pongs)
    ensures forall pong :: IsPing(fs, n) && Answers(pong, fs[n].payload) ==> AreAnswers(fs, n + 1, pongs + [pong])
  {
    assert Places(n + 1, PingAt(fs)) == Places(n, PingAt(fs)) + if IsPing(fs, n) then [n] else [];
  }

  lemma PongAnswers(payload: seq<byte>)
    requires |payload| <= 125
    ensures Answers(Encoders.MaskedFrame(PONG, PONG_MASK, payload), payload)
  {
    var pong := Encoders.MaskedFrame(PONG, PONG_MASK, payload);
    Encoders.MaskedFrameParses(PONG, PONG_MASK, payload, []);
    assert pong + [] == pong;
  }

  lemma {:induction false} ReadFrom(fs: Pieces, n: nat, s: seq<byte>, sent: seq<seq<byte>>) returns (j: nat)
    requires n <= |fs| && PiecesOf(s) == fs[n..] && AreAnswers(fs, n, sent)
    ensures ReadUpTo(fs, n, j, s, sent, ReadMessage(s, Held(fs, n)))
    decreases |s|
  {
    var f, r := ParseFrame(s), ReadMessage(s, Held(fs, n));
    j := n;
    if f.Frame? {
      assert fs[n] == fs[n..][0] && fs[n + 1..] == fs[n..][1..];
    }
    if !f.Frame? || !GoesOn(fs, n) {
      ReadEnds(fs, n, s, sent);
    } else {
      PongSent(fs, n, sent);
      ReadOne(fs, n, s);
      j := ReadFrom(fs, n + 1, s[f.size..], sent + PongFor(fs, n));
      FurtherOn(fs, n, j, s, sent, PongFor(fs, n), ReadMessage(s[f.size..], Held(fs, n + 1)), r);
    }
  }

  /** Without a frame, or with one that decides, the reading is over. */
  lemma ReadEnds(fs: Pieces, n: nat, s: seq<byte>, sent: seq<seq<byte>>)
    requires n <= |fs| && AreAnswers(fs, n, sent)
    requires var f := ParseFrame(s);
             if f.Frame? then n < |fs| && fs[n] == Piece(f.final, f.opcode, f.payload) && !GoesOn(fs, n)
             else n == |fs|
    ensures ReadUpTo(fs, n, n, s, sent, ReadMessage(s, Held(fs, n)))
  {
    if n < |fs| {
      Decision(fs, n);
    }
    assert sent + [] == sent;
  }

  function PongFor(fs: Pieces, n: nat): seq<seq<byte>> {
    if IsPing(fs, n) then [Encoders.MaskedFrame(PONG, PONG_MASK, fs[n].payload)] else []
  }

  lemma PongSent(fs: Pieces, n: nat, sent: seq<seq<byte>>)
    requires n < |fs| && AreAnswers(fs, n, sent) && !Breaks(fs, n)
    ensures AreAnswers(fs, n + 1, sent + PongFor(fs, n))
  {
    AnswersNext(fs, n, sent);
    if IsPing(fs, n) {
      PongAnswers(fs[n].payload);
    } else {
      assert sent + [] == sent;
    }
  }

  /** A frame that decides nothing leaves the reading to the rest. */
  lemma ReadOne(fs: Pieces, n: nat, s: seq<byte>)
    requires n < |fs| && GoesOn(fs, n) && ParseFrame(s).Frame?
    requires var f := ParseFrame(s); fs[n] == Piece(f.final, f.opcode, f.payload)
    ensures var r, later := ReadMessage(s, Held(fs, n)), ReadMessage(s[ParseFrame(s).size..], Held(fs, n + 1));
            r == if later.Message? then Message(later.text, later.rest, PongFor(fs, n) + later.pongs)
                 else Stopped(PongFor(fs, n) + later.pongs)
  {
    Decision(fs, n);
    var later := ReadMessage(s[ParseFrame(s).size..], Held(fs, n + 1));
    assert [] + later.pongs == later.pongs;
  }

  lemma FurtherOn(
    fs: Pieces, n: nat, j: nat, s: seq<byte>, sent: seq<seq<byte>>, pong: seq<seq<byte>>, later: Read, r: Read)
    requires n < |fs| && GoesOn(fs, n) && ParseFrame(s).Frame?
    requires ReadUpTo(fs, n + 1, j, s[ParseFrame(s).size..], sent + pong, later)
    requires r == if later.Message? then Message(later.text, later.rest, pong + later.pongs)
                  else Stopped(pong + later.pongs)
    ensures ReadUpTo(fs, n, j, s, sent, r)
  {
    AppendThree(sent, pong, later.pongs);
  }

  /**
    Reading one message. The frames before the deciding one neither complete nor
    break it; the message is the one that frame completes; and the pings up to
    there are answered one by one, each with a final pong of its own payload.
   */
  lemma ReadIsDeclared(s: seq<byte>) returns (j: nat)
    ensures ReadUpTo(PiecesOf(s), 0, j, s, [], ReadMessage(s, []))
    ensures AreAnswers(PiecesOf(s), j, ReadMessage(s, []).pongs)
  {
    var fs := PiecesOf(s);
    assert fs[0..] == fs;
    j := ReadFrom(fs, 0, s, []);
    assert [] + ReadMessage(s, []).pongs == ReadMessage(s, []).pongs;
  }
}

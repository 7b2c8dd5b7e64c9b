/**
  The messages of a sequence of frames, declared by looking at the frames alone
  (sections 5.4 and 5.5 of RFC 6455), and the decoder's output against them.
 */
module Fragments {
  import opened Common
  import opened Bytes
  import opened Frames
  import opened Picks

  /** One complete frame. */
  datatype Piece = Piece(final: bool, opcode: byte, payload: seq<byte>)

  type Pieces = fs: seq<Piece> | forall i | 0 <= i < |fs| :: |fs[i].payload| <= MAX_MESSAGE witness []

  /** The complete frames at the front of a buffer, and what stands behind them. */
  function PiecesOf(p: seq<byte>): Pieces
    decreases |p|
  {
    match ParseFrame(p)
    case Frame(final, opcode, payload, size) => [Piece(final, opcode, payload)] + PiecesOf(p[size..])
    case _ => []
  }

  function Rest(p: seq<byte>): seq<byte>
    decreases |p|
  {
    var f := ParseFrame(p);
    if f.Frame? then Rest(p[f.size..]) else p
  }

  // ---------------------------------------------------------------- declared messages

  /** A text frame that is not final opens a fragmented message. */
  predicate Opens(fs: Pieces, i: nat) {
    i < |fs| && fs[i].opcode == 1 && !fs[i].final
  }

  predicate Continues(fs: Pieces, i: nat) {
    i < |fs| && fs[i].opcode == 0
  }

  /** The payload of frame i and of the continuations behind it, up to n. */
  function Collected(fs: Pieces, i: nat, n: nat): seq<byte>
    requires i < n <= |fs|
  {
    if n == i + 1 then fs[i].payload
    else Collected(fs, i, n - 1) + if Continues(fs, n - 1) then fs[n - 1].payload else []
  }

  /** The continuation at j ends the message opened at i: it is final, or too much has come. */
  predicate Closes(fs: Pieces, i: nat, j: nat) {
    i < j && Continues(fs, j) && (fs[j].final || |Collected(fs, i, j + 1)| > 67108864)
  }

  /** The message opened at i is still open before n. */
  predicate OpenAt(fs: Pieces, i: nat, n: nat) {
    && i < n <= |fs| && Opens(fs, i)
    && forall l: nat | i < l < n :: !Opens(fs, l) && !Closes(fs, i, l)
  }

  predicate AnyOpen(fs: Pieces, n: nat) {
    exists i: nat :: i < n && OpenAt(fs, i, n)
  }

  /** The final continuation at j completes the message opened at i. */
  predicate Completes(fs: Pieces, i: nat, j: nat) {
    OpenAt(fs, i, j) && Continues(fs, j) && fs[j].final && |Collected(fs, i, j + 1)| <= 67108864
  }

  /** A message is complete with frame j: a final text frame, or the last fragment of one. */
  predicate Speaks(fs: Pieces, j: nat) {
    j < |fs| && ((fs[j].opcode == 1 && fs[j].final) || exists i: nat :: i < j && Completes(fs, i, j))
  }

  /** This is the message that frame j completes. */
  predicate Says(fs: Pieces, j: nat, text: seq<byte>) {
    && j < |fs|
    && if fs[j].opcode == 1 then fs[j].final && text == fs[j].payload
       else exists i: nat :: i < j && Completes(fs, i, j) && text == Collected(fs, i, j + 1)
  }

  /** The continuation at j makes the message opened at i too long. */
  predicate Overflows(fs: Pieces, i: nat, j: nat) {
    OpenAt(fs, i, j) && Continues(fs, j) && |Collected(fs, i, j + 1)| > 67108864
  }

  /** Reserved opcodes, a continuation of nothing, and a message that grows too long. */
  predicate Faulty(fs: Pieces, j: nat) {
    if j >= |fs| then false
    else if Continues(fs, j) then !AnyOpen(fs, j) || exists i: nat :: i < j && Overflows(fs, i, j)
    else fs[j].opcode !in {0x1, 0x2, 0x8, 0x9, 0xa}
  }

  // ---------------------------------------------------------------- frame by frame

  /** What the decoder has after n frames. */
  function Taken(fs: Pieces, n: nat): (a: Accepted)
    requires n <= |fs|
    ensures a.fragment.Some? ==> |a.fragment.value| <= MAX_MESSAGE
  {
    if n == 0 then Accepted(None, [], 0)
    else
      var before := Taken(fs, n - 1);
      var a := Accept(before.fragment, fs[n - 1].final, fs[n - 1].opcode, fs[n - 1].payload);
      Accepted(a.fragment, before.messages + a.messages, before.failures + a.failures)
  }

  lemma OpenNext(fs: Pieces, i: nat, n: nat)
    requires n < |fs|
    ensures OpenAt(fs, i, n + 1) <==>
            if i == n then Opens(fs, n) else OpenAt(fs, i, n) && !Opens(fs, n) && !Closes(fs, i, n)
  {
  }

  lemma OpenIsUnique(fs: Pieces, i: nat, k: nat, n: nat)
    requires OpenAt(fs, i, n) && OpenAt(fs, k, n)
    ensures i == k
  {
  }

  /** The fragment the decoder holds is what the open message has collected. */
  predicate Holds(fs: Pieces, n: nat, fragment: Option<seq<byte>>)
    requires n <= |fs|
  {
    && (fragment.None? <==> !AnyOpen(fs, n))
    && (fragment.Some? ==> exists i: nat :: i < n && OpenAt(fs, i, n) && fragment.value == Collected(fs, i, n))
  }

  lemma {:induction false} FragmentIsDeclared(fs: Pieces, n: nat)
    requires n <= |fs|
    ensures Holds(fs, n, Taken(fs, n).fragment)
    decreases n
  {
    if n > 0 {
      FragmentIsDeclared(fs, n - 1);
      FragmentNext(fs, n - 1);
    }
  }

  lemma FragmentNext(fs: Pieces, n: nat)
    requires n < |fs| && Holds(fs, n, Taken(fs, n).fragment)
    ensures Holds(fs, n + 1, Taken(fs, n + 1).fragment)
  {
    forall i: nat | i <= n {
      OpenNext(fs, i, n);
    }
    if Opens(fs, n) {
      assert OpenAt(fs, n, n + 1) && Collected(fs, n, n + 1) == fs[n].payload;
    } else if i: nat :| i < n && OpenAt(fs, i, n) {
      forall k: nat | k < n && OpenAt(fs, k, n)
        ensures k == i
      {
        OpenIsUnique(fs, i, k, n);
      }
    }
  }

  /** What frame n adds: at most one message, and at most one failure. */
  function Gain(fs: Pieces, n: nat): Accepted
    requires n < |fs|
  {
    Accept(Taken(fs, n).fragment, fs[n].final, fs[n].opcode, fs[n].payload)
  }

  lemma GainIsDeclared(fs: Pieces, n: nat)
    requires n < |fs|
    ensures |Gain(fs, n).messages| == (if Speaks(fs, n) then 1 else 0)
    ensures Speaks(fs, n) ==> Says(fs, n, Gain(fs, n).messages[0])
    ensures Gain(fs, n).failures == if Faulty(fs, n) then 1 else 0
  {
    FragmentIsDeclared(fs, n);
    if Continues(fs, n) && AnyOpen(fs, n) {
      var i: nat :| i < n && OpenAt(fs, i, n) && Taken(fs, n).fragment == Some(Collected(fs, i, n));
      ContinuationOf(fs, i, n);
    }
  }

  lemma ContinuationOf(fs: Pieces, i: nat, n: nat)
    requires OpenAt(fs, i, n) && Continues(fs, n)
    ensures Collected(fs, i, n + 1) == Collected(fs, i, n) + fs[n].payload
    ensures Speaks(fs, n) <==> fs[n].final && |Collected(fs, i, n + 1)| <= 67108864
    ensures Speaks(fs, n) ==> Says(fs, n, Collected(fs, i, n + 1))
    ensures Faulty(fs, n) <==> |Collected(fs, i, n + 1)| > 67108864
  {
    forall k: nat | k < n && OpenAt(fs, k, n)
      ensures k == i
    {
      OpenIsUnique(fs, i, k, n);
    }
    assert Completes(fs, i, n) <==> fs[n].final && |Collected(fs, i, n + 1)| <= 67108864;
    assert Overflows(fs, i, n) <==> |Collected(fs, i, n + 1)| > 67108864;
  }

  function SpeaksAt(fs: Pieces): nat -> bool {
    (j: nat) => Speaks(fs, j)
  }

  function FaultyAt(fs: Pieces): nat -> bool {
    (j: nat) => Faulty(fs, j)
  }

  /** These are the declared messages of the first n frames, in order. */
  predicate AreMessages(fs: Pieces, n: nat, messages: seq<seq<byte>>) {
    && |messages| == |Places(n, SpeaksAt(fs))|
    && forall k | 0 <= k < |messages| :: Says(fs, Places(n, SpeaksAt(fs))[k], messages[k])
  }

  function MessagesSoFar(fs: Pieces): nat -> seq<seq<byte>> {
    (n: nat) => if n <= |fs| then Taken(fs, n).messages else []
  }

  function FailuresSoFar(fs: Pieces): nat -> int {
    (n: nat) => if n <= |fs| then Taken(fs, n).failures else 0
  }

  function NewMessage(fs: Pieces): nat -> seq<byte> {
    (n: nat) => if n < |fs| && Gain(fs, n).messages != [] then Gain(fs, n).messages[0] else []
  }

  lemma GainsThere(fs: Pieces, j: nat)
    requires j < |fs|
    ensures Gains(MessagesSoFar(fs), SpeaksAt(fs), NewMessage(fs), j)
    ensures Counts(FailuresSoFar(fs), FaultyAt(fs), j)
    ensures SpeaksAt(fs)(j) ==> Says(fs, j, NewMessage(fs)(j))
  {
    GainIsDeclared(fs, j);
    var gain := Gain(fs, j);
    assert Taken(fs, j + 1).messages == Taken(fs, j).messages + gain.messages;
    assert gain.messages == if Speaks(fs, j) then [gain.messages[0]] else [];
  }

  /** The decoder extracts exactly the declared messages and counts exactly the faulty frames. */
  lemma MessagesAreDeclared(fs: Pieces, n: nat)
    requires n <= |fs|
    ensures AreMessages(fs, n, Taken(fs, n).messages)
    ensures Taken(fs, n).failures == |Places(n, FaultyAt(fs))|
  {
    forall j: nat | j < n
      ensures Gains(MessagesSoFar(fs), SpeaksAt(fs), NewMessage(fs), j)
      ensures Counts(FailuresSoFar(fs), FaultyAt(fs), j)
      ensures SpeaksAt(fs)(j) ==> Says(fs, j, NewMessage(fs)(j))
    {
      GainsThere(fs, j);
    }
    Gathered(n, MessagesSoFar(fs), SpeaksAt(fs), NewMessage(fs));
    Counted(n, FailuresSoFar(fs), FaultyAt(fs));
    var messages := Taken(fs, n).messages;
    forall k | 0 <= k < |messages|
      ensures Says(fs, Places(n, SpeaksAt(fs))[k], messages[k])
    {
      assert Places(n, SpeaksAt(fs))[k] in Places(n, SpeaksAt(fs));
    }
  }

  // ---------------------------------------------------------------- a whole buffer

  /** A fragment already held stands for the frame that opened it. */
  function Opening(fragment: Fragment): Pieces {
    if fragment.None? then [] else [Piece(false, 1, fragment.value)]
  }

  lemma {:induction false} TakenPrefix(pre: Pieces, more: Pieces, n: nat)
    requires n <= |pre|
    ensures Taken(pre + more, n) == Taken(pre, n)
    decreases n
  {
    if n > 0 {
      TakenPrefix(pre, more, n - 1);
    }
  }

  lemma TakenMore(pre: Pieces, f: Piece)
    requires |f.payload| <= MAX_MESSAGE
    ensures var before, a := Taken(pre, |pre|), Accept(Taken(pre, |pre|).fragment, f.final, f.opcode, f.payload);
            Taken(pre + [f], |pre + [f]|)
            == Accepted(a.fragment, before.messages + a.messages, before.failures + a.failures)
  {
    TakenPrefix(pre, [f], |pre|);
  }

  /** The rest of a drained buffer: one incomplete frame, or nothing where it is refused. */
  function Kept(rest: seq<byte>): seq<byte> {
    if ParseFrame(rest).Violation? then [] else rest
  }

  predicate DrainsTo(d: Drained, before: Accepted, after: Accepted, rest: seq<byte>) {
    && d.pending == Kept(rest) && d.cleared == ParseFrame(rest).Violation?
    && d.fragment == after.fragment
    && before.messages + d.messages == after.messages
    && before.failures + d.failures == after.failures + if ParseFrame(rest).Violation? then 1 else 0
  }

  lemma {:induction false} DrainFrom(pre: Pieces, p: seq<byte>)
    ensures var before, fs := Taken(pre, |pre|), pre + PiecesOf(p);
            DrainsTo(Drain(p, before.fragment), before, Taken(fs, |fs|), Rest(p))
    decreases |p|
  {
    var f := ParseFrame(p);
    if f.Frame? {
      var piece := Piece(f.final, f.opcode, f.payload);
      var before, next := Taken(pre, |pre|), pre + [piece];
      TakenMore(pre, piece);
      DrainFrom(next, p[f.size..]);
      AppendThree(pre, [piece], PiecesOf(p[f.size..]));
      var a := Accept(before.fragment, f.final, f.opcode, f.payload);
      DrainsFurther(Drain(p[f.size..], a.fragment), before, a, Taken(pre + PiecesOf(p), |pre + PiecesOf(p)|), Rest(p));
    } else {
      assert pre + PiecesOf(p) == pre;
      assert Taken(pre, |pre|).messages + [] == Taken(pre, |pre|).messages;
    }
  }

  lemma DrainsFurther(d: Drained, before: Accepted, a: Accepted, after: Accepted, rest: seq<byte>)
    requires DrainsTo(d, Accepted(a.fragment, before.messages + a.messages, before.failures + a.failures), after, rest)
    ensures DrainsTo(d.After(a.messages, a.failures), before, after, rest)
  {
    AppendThree(before.messages, a.messages, d.messages);
  }

  /**
    Draining a buffer. The messages are the declared ones of its complete frames,
    the failures are the faulty ones and the refused one behind them, and what is
    held is what the open message has collected.
   */
  lemma DrainIsDeclared(p: seq<byte>, fragment: Fragment)
    ensures var fs, d, refused := Opening(fragment) + PiecesOf(p), Drain(p, fragment), ParseFrame(Rest(p)).Violation?;
            && AreMessages(fs, |fs|, d.messages)
            && Holds(fs, |fs|, d.fragment)
            && d.failures == |Places(|fs|, FaultyAt(fs))| + (if refused then 1 else 0)
            && d.pending == (if refused then [] else Rest(p)) && d.cleared == refused
  {
    var fs := Opening(fragment) + PiecesOf(p);
    DrainIsTaken(p, fragment);
    MessagesAreDeclared(fs, |fs|);
    FragmentIsDeclared(fs, |fs|);
  }

  lemma DrainIsTaken(p: seq<byte>, fragment: Fragment)
    ensures var fs, d := Opening(fragment) + PiecesOf(p), Drain(p, fragment);
            && Taken(fs, |fs|).messages == d.messages && Taken(fs, |fs|).fragment == d.fragment
            && d.failures == Taken(fs, |fs|).failures + (if ParseFrame(Rest(p)).Violation? then 1 else 0)
            && d.pending == Kept(Rest(p)) && d.cleared == ParseFrame(Rest(p)).Violation?
  {
    DrainFrom(Opening(fragment), p);
    OpeningHolds(fragment);
    assert [] + Drain(p, fragment).messages == Drain(p, fragment).messages;
  }

  lemma OpeningHolds(fragment: Fragment)
    ensures var fs := Opening(fragment); Taken(fs, |fs|) == Accepted(fragment, [], 0)
  {
    var fs := Opening(fragment);
    if fragment.Some? {
      assert Taken(fs, 0) == Accepted(None, [], 0);
    }
  }
}

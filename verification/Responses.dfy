/**
  Responses as JSON-RPC means them, against replies as the observer takes them:
  it lets any server message that carries the id of an open request answer it,
  a request of the server's own included.
 */
module Responses {
  import opened Common
  import opened Protocol
  import opened History

  /** A server message with an id and no method answers a request; with a method it is one. */
  predicate Responds(e: Event, id: Option<RequestId>) {
    id.Some? && AnswersId(e) == id && e.server.name.None?
  }

  predicate ServerRequest(e: Event, id: Option<RequestId>) {
    id.Some? && AnswersId(e) == id && e.server.name.Some?
  }

  lemma AnswerIsResponseOrRequest(e: Event, id: RequestId)
    ensures AnswersId(e) == Some(id) <==> Responds(e, Some(id)) || ServerRequest(e, Some(id))
  {
  }

  /** Request i, registered under this id, has had no response up to n and no later request has its id. */
  ghost predicate Waiting(h: seq<Event>, i: nat, id: RequestId, n: nat) {
    && i < n <= |h|
    && Registers(h[i]) == Some(id)
    && forall l | i < l < n :: Registers(h[l]) != Some(id) && !Responds(h[l], Some(id))
  }

  /** Event j is the response to the request of event i. */
  ghost predicate IsResponseTo(h: seq<Event>, i: nat, j: nat) {
    && j < |h| && AnswersId(h[j]).Some?
    && Responds(h[j], AnswersId(h[j]))
    && Waiting(h, i, AnswersId(h[j]).value, j)
  }

  /** A request of the server's own carries the id of an open request of the client. */
  ghost predicate Misread(h: seq<Event>, l: nat) {
    && l < |h| && AnswersId(h[l]).Some?
    && ServerRequest(h[l], AnswersId(h[l])) && AnswersId(h[l]).value in At(h, l).pending
  }

  lemma {:induction false} WaitingIsOpen(h: seq<Event>, i: nat, id: RequestId, n: nat)
    requires forall l: nat | l < n :: !Misread(h, l)
    ensures Waiting(h, i, id, n) <==> OpenAt(h, i, id, n)
    decreases n
  {
    if Waiting(h, i, id, n) && i < n - 1 {
      assert Waiting(h, i, id, n - 1);
      WaitingIsOpen(h, i, id, n - 1);
      PendingIsDeclared(h, n - 1, id);
      assert !Misread(h, n - 1);
      AnswerIsResponseOrRequest(h[n - 1], id);
    }
  }

  /** What the observer takes for replies are the responses exactly as long as no request of the server's is misread. */
  lemma RepliesAreResponses(h: seq<Event>, n: nat)
    requires n <= |h|
    ensures (forall i: nat, j: nat | j < n :: Replies(h, i, j) <==> IsResponseTo(h, i, j))
       <==> forall l: nat | l < n :: !Misread(h, l)
  {
    if l: nat :| l < n && Misread(h, l) {
      var id := AnswersId(h[l]).value;
      PendingIsDeclared(h, l, id);
      var i: nat :| OpenAt(h, i, id, l) && RequestOf(h[i].client) == Some(At(h, l).pending[id]);
      assert Replies(h, i, l) && !IsResponseTo(h, i, l);
    } else {
      forall i: nat, j: nat | j < n
        ensures Replies(h, i, j) <==> IsResponseTo(h, i, j)
      {
        RepliesAt(h, i, j);
      }
    }
  }

  lemma RepliesAt(h: seq<Event>, i: nat, j: nat)
    requires forall l: nat | l <= j :: !Misread(h, l)
    ensures Replies(h, i, j) <==> IsResponseTo(h, i, j)
  {
    if j < |h| && AnswersId(h[j]).Some? {
      var id := AnswersId(h[j]).value;
      WaitingIsOpen(h, i, id, j);
      AnswerIsResponseOrRequest(h[j], id);
      PendingIsDeclared(h, j, id);
      assert !Misread(h, j);
    }
  }

  // ---------------------------------------------------------------- which response belongs to which request

  /**
    One way the responses may belong to the requests: each to an earlier request
    under its id, no two to one. Where ids are used twice there are several.
   */
  ghost predicate Matching(h: seq<Event>, answers: (nat, nat) -> bool) {
    && (forall i: nat, j: nat | answers(i, j) ::
          i < j < |h| && Registers(h[i]).Some? && Responds(h[j], Registers(h[i])))
    && (forall i: nat, j: nat, k: nat | answers(i, j) && answers(i, k) :: j == k)
    && (forall i: nat, j: nat, k: nat | answers(i, k) && answers(j, k) :: i == j)
  }

  /** A response belongs to the latest request under its id, if that has had none yet. */
  ghost function ResponsesOf(h: seq<Event>): (nat, nat) -> bool {
    (i: nat, j: nat) => IsResponseTo(h, i, j)
  }

  lemma ResponsesMatch(h: seq<Event>)
    ensures Matching(h, ResponsesOf(h))
  {
    var answers := ResponsesOf(h);
    forall i: nat, j: nat, k: nat | answers(i, j) && answers(i, k)
      ensures j == k
    {
      assert IsResponseTo(h, i, j) && IsResponseTo(h, i, k);
    }
    forall i: nat, j: nat, k: nat | answers(i, k) && answers(j, k)
      ensures i == j
    {
      assert IsResponseTo(h, i, k) && IsResponseTo(h, j, k);
    }
  }

  /** A message that carries the id, as request or as answer. */
  predicate Carries(e: Event, id: RequestId) {
    Registers(e) == Some(id) || AnswersId(e) == Some(id)
  }

  /** Between request i and n some message carries its id again: the observer no longer waits for it. */
  predicate Displaced(h: seq<Event>, i: nat, n: nat) {
    i < n <= |h| && Registers(h[i]).Some? && exists l | i < l < n :: Carries(h[l], Registers(h[i]).value)
  }

  lemma OpenIfNotDisplaced(h: seq<Event>, i: nat, n: nat)
    requires i < n <= |h| && Registers(h[i]).Some?
    ensures OpenAt(h, i, Registers(h[i]).value, n) <==> !Displaced(h, i, n)
  {
    assert OpenAt(h, i, Registers(h[i]).value, n) ==>
             forall l | i < l < n :: !Carries(h[l], Registers(h[i]).value);
  }

  /** Request i and server message j together have this effect. */
  predicate Does(h: seq<Event>, i: nat, j: nat, effect: (PendingRequest, ServerMessage) -> bool) {
    && i < |h| && j < |h| && Registers(h[i]).Some? && h[j].FromServer?
    && effect(RequestOf(h[i].client).value, h[j].server)
  }

  /** Event j is a response that has this effect on the request it belongs to. */
  ghost predicate ResponseDoes(
    h: seq<Event>, answers: (nat, nat) -> bool, j: nat, effect: (PendingRequest, ServerMessage) -> bool)
  {
    exists i: nat :: answers(i, j) && Does(h, i, j, effect)
  }

  /** And the observer no longer waited for it. */
  ghost predicate MissedDoes(
    h: seq<Event>, answers: (nat, nat) -> bool, j: nat, effect: (PendingRequest, ServerMessage) -> bool)
  {
    exists i: nat :: answers(i, j) && Displaced(h, i, j) && Does(h, i, j, effect)
  }

  /** The observer gave event j this effect on a request it does not belong to. */
  ghost predicate PhantomDoes(
    h: seq<Event>, answers: (nat, nat) -> bool, j: nat, effect: (PendingRequest, ServerMessage) -> bool)
  {
    exists i: nat :: Replies(h, i, j) && !answers(i, j) && Does(h, i, j, effect)
  }

  /** What the observer heeds and what it misses is together what is true and what it makes up. */
  lemma EffectsBalance(
    h: seq<Event>, answers: (nat, nat) -> bool, j: nat, effect: (PendingRequest, ServerMessage) -> bool)
    requires Matching(h, answers)
    ensures ReplyDoes(h, j, effect) || MissedDoes(h, answers, j, effect)
       <==> ResponseDoes(h, answers, j, effect) || PhantomDoes(h, answers, j, effect)
  {
    if i: nat :| answers(i, j) && Does(h, i, j, effect) {
      OpenIfNotDisplaced(h, i, j);
      assert !Displaced(h, i, j) ==> Replies(h, i, j);
    }
    if i: nat :| Replies(h, i, j) && effect(RequestOf(h[i].client).value, h[j].server) {
      assert Does(h, i, j, effect);
    }
  }
}

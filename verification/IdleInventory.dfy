/**
  The read-only inventory behind every reclaim: page through the loaded threads,
  ask for each one's status, and answer yes only when everything is proven idle.
 */
module IdleInventory {
  import opened Common

  datatype Cursor = Null | Token(text: string)

  /** A page of the inventory as far as it parses: ids that are not strings are `None`. */
  datatype PageReply =
    | RequestFailed
    | Page(data: Option<seq<Option<string>>>, next: Option<Cursor>)

  const MAX_PAGES: nat := 128
  const MAX_THREADS: nat := 4096

  /** Whatever the server answers, page by page and item by item. */
  datatype Peer = Peer(connects: bool, list: (nat, Cursor) -> PageReply, idle: (nat, nat) -> bool)
  {
    /** The cursor the k-th page is asked for with, chained through the earlier replies. */
    function CursorOf(k: nat): Option<Cursor> {
      if k == 0 then Some(Null)
      else if CursorOf(k - 1).None? then None
      else
        var page := list(k - 1, CursorOf(k - 1).value);
        if page.Page? then page.next else None
    }

    function ReplyOf(k: nat): PageReply {
      if CursorOf(k).Some? then list(k, CursorOf(k).value) else RequestFailed
    }

    predicate WellFormed(k: nat) {
      var page := ReplyOf(k);
      page.Page? && page.data.Some? && page.next.Some?
      && forall i | 0 <= i < |page.data.value| :: page.data.value[i].Some?
    }

    function IdsOf(k: nat): seq<string>
      requires WellFormed(k)
    {
      var data := ReplyOf(k).data.value;
      seq(|data|, i requires 0 <= i < |data| => data[i].value)
    }

    predicate LastPage(k: nat)
      requires WellFormed(k)
    {
      ReplyOf(k).next == Some(Null)
    }

    predicate AllWellFormed(n: nat) {
      forall k: nat | k < n :: WellFormed(k)
    }

    /** The ids of the first n pages, in order. */
    function Inventory(n: nat): seq<string>
      requires AllWellFormed(n)
    {
      if n == 0 then [] else Inventory(n - 1) + IdsOf(n - 1)
    }

    /** Pages 0 to n form a complete inventory, and everything in it was read as idle. */
    predicate CompleteAndIdle(n: nat) {
      && AllWellFormed(n + 1)
      && (forall k: nat | k < n :: !LastPage(k))
      && LastPage(n)
      && Distinct(Inventory(n + 1))
      && |Inventory(n + 1)| <= 4096
      && (forall k: nat | k <= n :: AllIdle(k, |IdsOf(k)|))
    }

    predicate AllIdle(k: nat, n: nat) {
      forall i: nat | i < n :: idle(k, i)
    }

    predicate ProvenIdle() {
      connects && exists n: nat | n < 128 :: CompleteAndIdle(n)
    }

    // -------------------------------------------------------------- why a check can stop early

    lemma {:induction false} InventoryGrows(m: nat, n: nat)
      requires m <= n && AllWellFormed(n)
      ensures Inventory(m) <= Inventory(n)
      decreases n
    {
      if m < n {
        InventoryGrows(m, n - 1);
      }
    }

    /** Every page before k was well formed, idle, and not the last. */
    predicate PassedTo(k: nat) {
      && AllWellFormed(k)
      && (forall j: nat | j < k :: !LastPage(j) && AllIdle(j, |IdsOf(j)|))
    }

    lemma BadPageIsFinal(k: nat)
      requires PassedTo(k) && !WellFormed(k)
      ensures !ProvenIdle()
    {
      forall n: nat
        ensures !CompleteAndIdle(n)
      {
        assert n < k ==> !LastPage(n);
      }
    }

    lemma BusyThreadIsFinal(k: nat, i: nat)
      requires PassedTo(k) && WellFormed(k) && i < |IdsOf(k)| && !idle(k, i)
      ensures !ProvenIdle()
    {
      forall n: nat
        ensures !CompleteAndIdle(n)
      {
        assert n < k ==> !LastPage(n);
        assert k <= n && CompleteAndIdle(n) ==> AllIdle(k, |IdsOf(k)|);
      }
    }

    lemma PartOfInventory(k: nat, i: nat, n: nat)
      requires k <= n && AllWellFormed(n + 1) && i < |IdsOf(k)|
      ensures Inventory(k) + IdsOf(k)[..i + 1] <= Inventory(n + 1)
    {
      InventoryGrows(k + 1, n + 1);
      assert Inventory(k + 1) == Inventory(k) + IdsOf(k);
    }

    /** The inventory up to and with item i of page k. */
    function UpTo(k: nat, i: nat): seq<string>
      requires AllWellFormed(k) && WellFormed(k) && i < |IdsOf(k)|
    {
      Inventory(k) + IdsOf(k)[..i + 1]
    }

    lemma BadInventoryIsFinal(k: nat, i: nat)
      requires PassedTo(k) && WellFormed(k) && i < |IdsOf(k)|
      requires !Distinct(UpTo(k, i)) || |UpTo(k, i)| > MAX_THREADS
      ensures !ProvenIdle()
    {
      forall n: nat
        ensures !CompleteAndIdle(n)
      {
        assert n < k ==> !LastPage(n);
        if k <= n && AllWellFormed(n + 1) {
          PartOfInventory(k, i, n);
          LongIsBad(UpTo(k, i), Inventory(n + 1));
        }
      }
    }

    lemma TooManyPagesIsFinal()
      requires PassedTo(MAX_PAGES)
      ensures !ProvenIdle()
    {
      forall n: nat | n < MAX_PAGES
        ensures !CompleteAndIdle(n)
      {
        assert !LastPage(n);
      }
    }
  }

  predicate Distinct(ids: seq<string>) {
    forall i, j | 0 <= i < j < |ids| :: ids[i] != ids[j]
  }

  lemma LongIsBad(short: seq<string>, long: seq<string>)
    requires short <= long
    ensures !Distinct(short) || |short| > MAX_THREADS ==> !Distinct(long) || |long| > MAX_THREADS
  {
    if !Distinct(short) {
      var i, j :| 0 <= i < j < |short| && short[i] == short[j];
      assert long[i] == long[j];
    }
  }

  function Elements(ids: seq<string>): set<string> {
    set id | id in ids
  }

  lemma {:induction false} DistinctCount(ids: seq<string>)
    requires Distinct(ids)
    ensures |Elements(ids)| == |ids|
    decreases |ids|
  {
    if ids != [] {
      var before, last := ids[..|ids| - 1], ids[|ids| - 1];
      DistinctCount(before);
      assert Elements(ids) == Elements(before) + {last};
      assert last !in before;
    }
  }

  lemma AppendOne(ids: seq<string>, id: string)
    requires Distinct(ids)
    ensures Elements(ids + [id]) == Elements(ids) + {id}
    ensures Distinct(ids + [id]) <==> id !in ids
  {
    var more := ids + [id];
    assert more[|ids|] == id;
    if id in ids {
      var i :| 0 <= i < |ids| && ids[i] == id;
      assert more[i] == more[|ids|];
    }
  }

  /** Fail closed: the answer is yes exactly when the inventory is complete, free of duplicates, bounded and idle. */
  method RuntimeIsIdle(peer: Peer) returns (idle: bool)
    ensures idle <==> peer.ProvenIdle()
  {
    if !peer.connects {
      return false;
    }
    var cursor := Null;
    var seen: set<string> := {};
    for k := 0 to MAX_PAGES
      invariant peer.CursorOf(k) == Some(cursor)
      invariant peer.PassedTo(k)
      invariant Distinct(peer.Inventory(k)) && |peer.Inventory(k)| <= MAX_THREADS
      invariant seen == Elements(peer.Inventory(k))
    {
      var page := peer.list(k, cursor);
      if page.RequestFailed? || page.data.None? {
        peer.BadPageIsFinal(k);
        return false;
      }
      var ok: bool;
      ok, seen := CheckPage(peer, k, page.data.value, seen);
      if !ok {
        return false;
      }
      if page.next.None? {
        peer.BadPageIsFinal(k);
        return false;
      }
      assert peer.WellFormed(k);
      cursor := page.next.value;
      if cursor == Null {
        assert peer.CompleteAndIdle(k);
        return true;
      }
      assert forall j: nat | j < k + 1 :: peer.WellFormed(j);
    }
    peer.TooManyPagesIsFinal();
    return false;
  }

  /** The ids of one page; a missing cursor is noticed only after them. */
  method CheckPage(peer: Peer, k: nat, data: seq<Option<string>>, before: set<string>)
    returns (ok: bool, seen: set<string>)
    requires peer.PassedTo(k) && peer.ReplyOf(k).Page? && peer.ReplyOf(k).data == Some(data)
    requires Distinct(peer.Inventory(k)) && |peer.Inventory(k)| <= MAX_THREADS
    requires before == Elements(peer.Inventory(k))
    ensures !ok ==> !peer.ProvenIdle()
    ensures ok ==> forall i | 0 <= i < |data| :: data[i].Some?
    ensures ok && peer.WellFormed(k) ==>
              && Distinct(peer.Inventory(k) + peer.IdsOf(k)) && |peer.Inventory(k) + peer.IdsOf(k)| <= MAX_THREADS
              && seen == Elements(peer.Inventory(k) + peer.IdsOf(k))
              && peer.AllIdle(k, |peer.IdsOf(k)|)
  {
    seen := before;
    ghost var soFar := peer.Inventory(k);
    for i := 0 to |data|
      invariant forall j | 0 <= j < i :: data[j].Some?
      invariant Checked(peer, k, i, soFar, seen)
    {
      if data[i].None? {
        peer.BadPageIsFinal(k);
        return false, seen;
      }
      var id := data[i].value;
      CheckOne(peer, k, data, i, soFar, seen);
      if id in seen || |seen + {id}| > MAX_THREADS || !peer.idle(k, i) {
        return false, seen + {id};
      }
      seen := seen + {id};
      soFar := soFar + [id];
    }
    ok := true;
    assert peer.WellFormed(k) ==> peer.IdsOf(k)[..|data|] == peer.IdsOf(k);
  }

  /** What is known after i items of page k: `soFar` is the inventory up to there and `seen` its ids. */
  ghost predicate Checked(peer: Peer, k: nat, i: nat, soFar: seq<string>, seen: set<string>) {
    && peer.PassedTo(k)
    && (peer.WellFormed(k) ==> i <= |peer.IdsOf(k)| && soFar == peer.Inventory(k) + peer.IdsOf(k)[..i])
    && Distinct(soFar) && |soFar| <= MAX_THREADS && seen == Elements(soFar)
    && peer.AllIdle(k, i)
  }

  /** Either the next item is fatal for every way the inventory could go on, or the check may continue. */
  lemma {:induction false} CheckOne(
    peer: Peer, k: nat, data: seq<Option<string>>, i: nat, soFar: seq<string>, seen: set<string>)
    requires Checked(peer, k, i, soFar, seen)
    requires peer.ReplyOf(k).Page? && peer.ReplyOf(k).data == Some(data)
    requires i < |data| && data[i].Some?
    ensures var id := data[i].value;
            if id in seen || |seen + {id}| > MAX_THREADS || !peer.idle(k, i)
            then !peer.ProvenIdle()
            else Checked(peer, k, i + 1, soFar + [id], seen + {id})
  {
    var id := data[i].value;
    AppendOne(soFar, id);
    DistinctCount(soFar);
    assert peer.WellFormed(k) ==> soFar + [id] == peer.UpTo(k, i);
    if id in seen || |seen + {id}| > MAX_THREADS || !peer.idle(k, i) {
      StopsHere(peer, k, i, soFar + [id]);
    }
  }

  lemma StopsHere(peer: Peer, k: nat, i: nat, soFar: seq<string>)
    requires peer.PassedTo(k)
    requires peer.WellFormed(k) ==> i < |peer.IdsOf(k)| && soFar == peer.UpTo(k, i)
    requires !Distinct(soFar) || |soFar| > MAX_THREADS || !peer.idle(k, i)
    ensures !peer.ProvenIdle()
  {
    if !peer.WellFormed(k) {
      peer.BadPageIsFinal(k);
    } else if !peer.idle(k, i) {
      peer.BusyThreadIsFinal(k, i);
    } else {
      peer.BadInventoryIsFinal(k, i);
    }
  }
}

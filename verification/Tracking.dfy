/**
  Whom the process registry follows, declared by the process tables it was shown:
  the root as it was first seen, whoever descends from it or from a process still
  followed, and nobody else.
 */
module Tracking {
  import opened Common
  import opened ProcessTree

  /** A table shows the pid, and the first row that does has this stamp. */
  predicate ShownAs(table: Table, pid: Pid, stamp: string) {
    exists k :: 0 <= k < |table| && FirstRowAt(table, pid, k) && table[k].stamp == stamp
  }

  predicate FirstRowAt(table: Table, pid: Pid, k: nat)
    requires k < |table|
  {
    table[k].pid == pid && forall l | 0 <= l < k :: table[l].pid != pid
  }

  predicate Lists(table: Table, pid: Pid) {
    exists k | 0 <= k < |table| :: table[k].pid == pid
  }

  /** The first of the first n tables that lists the root shows it with this stamp. */
  ghost predicate FirstSeenAs(tables: seq<Table>, n: nat, root: Pid, stamp: string) {
    exists i: nat :: SeenFirstIn(tables, n, root, stamp, i)
  }

  ghost predicate SeenFirstIn(tables: seq<Table>, n: nat, root: Pid, stamp: string, i: nat) {
    i < n <= |tables| && ShownAs(tables[i], root, stamp) && forall j | 0 <= j < i :: !Lists(tables[j], root)
  }

  /** The process of this row was followed before, under this very pid, group and stamp. */
  predicate WasFollowed(known: Known, row: Row) {
    row.pid in known && known[row.pid] == (row.group, row.stamp)
  }

  /** Rows with a group and a stamp of their own, each the child of the one before. */
  predicate Chain(table: Table, chain: seq<Row>) {
    && chain != []
    && (forall i | 0 <= i < |chain| :: chain[i] in table && chain[i].group > 1 && chain[i].stamp != "")
    && (forall i | 0 < i < |chain| :: chain[i].parent == chain[i - 1].pid)
  }

  /** The row is the root's, or its parent is the root or was followed before and is still there. */
  predicate Begins(known: Known, table: Table, root: Pid, rootIsThere: bool, row: Row) {
    || (rootIsThere && (row.pid == root || row.parent == root))
    || exists parent | parent in table :: parent.pid == row.parent && WasFollowed(known, parent)
  }

  ghost predicate IsFollowed(known: Known, table: Table, root: Pid, rootIsThere: bool, row: Row) {
    && row in table
    && (WasFollowed(known, row) || exists chain :: Leads(known, table, root, rootIsThere, row, chain))
  }

  predicate Leads(known: Known, table: Table, root: Pid, rootIsThere: bool, row: Row, chain: seq<Row>) {
    Chain(table, chain) && Begins(known, table, root, rootIsThere, chain[0]) && chain[|chain| - 1] == row
  }

  // ---------------------------------------------------------------- the stamp of the root

  lemma {:induction false} StampRow(table: Table, pid: Pid) returns (k: nat)
    ensures StampOf(table, pid).None? ==> !Lists(table, pid)
    ensures StampOf(table, pid).Some? ==>
              k < |table| && FirstRowAt(table, pid, k) && StampOf(table, pid).value == table[k].stamp
    decreases |table|
  {
    k := 0;
    if table != [] && table[0].pid != pid {
      k := StampRow(table[1..], pid);
      k := k + 1;
      assert forall l | 0 < l < |table| :: table[l] == table[1..][l - 1];
    }
  }

  lemma StampIsFirst(table: Table, pid: Pid)
    ensures StampOf(table, pid).Some? <==> Lists(table, pid)
    ensures forall stamp :: StampOf(table, pid) == Some(stamp) <==> ShownAs(table, pid, stamp)
  {
    var k := StampRow(table, pid);
  }

  /** The stamp kept for the root is that of the first table that lists it. */
  lemma {:induction false} RootStampIsFirst(root: Pid, tables: seq<Table>, states: seq<Tracking>, n: nat)
    requires RegistryRun(root, tables, states) && n <= |tables|
    ensures forall stamp :: states[n].rootStamp == Some(stamp) <==> FirstSeenAs(tables, n, root, stamp)
    ensures states[n].rootStamp.None? ==> forall j | 0 <= j < n :: !Lists(tables[j], root)
    decreases n
  {
    if n > 0 {
      RootStampIsFirst(root, tables, states, n - 1);
      assert RefreshedAt(root, tables, states, n - 1);
      StampIsFirst(tables[n - 1], root);
      forall stamp
        ensures states[n].rootStamp == Some(stamp) <==> FirstSeenAs(tables, n, root, stamp)
      {
        FirstSeenNext(root, tables, n - 1, stamp);
      }
    }
  }

  lemma FirstSeenNext(root: Pid, tables: seq<Table>, n: nat, stamp: string)
    requires n < |tables|
    ensures FirstSeenAs(tables, n + 1, root, stamp) <==>
            || FirstSeenAs(tables, n, root, stamp)
            || ((forall j | 0 <= j < n :: !Lists(tables[j], root)) && ShownAs(tables[n], root, stamp))
  {
    if i: nat :| SeenFirstIn(tables, n, root, stamp, i) {
      assert SeenFirstIn(tables, n + 1, root, stamp, i);
    }
    if (forall j | 0 <= j < n :: !Lists(tables[j], root)) && ShownAs(tables[n], root, stamp) {
      assert SeenFirstIn(tables, n + 1, root, stamp, n);
    }
    var m := n + 1;
    if i: nat :| SeenFirstIn(tables, m, root, stamp, i) {
      assert i < n ==> SeenFirstIn(tables, n, root, stamp, i);
    }
  }

  /** The table shows the root as it was first seen, this table included. */
  ghost predicate RootIsThere(tables: seq<Table>, n: nat, root: Pid)
    requires n < |tables|
  {
    exists stamp :: FirstSeenAs(tables, n + 1, root, stamp) && ShownAs(tables[n], root, stamp)
  }

  lemma RootMatchesIff(root: Pid, tables: seq<Table>, states: seq<Tracking>, n: nat)
    requires RegistryRun(root, tables, states) && n < |tables|
    ensures BasisOf(states[n], tables[n], root).rootMatches <==> RootIsThere(tables, n, root)
  {
    RootStampIsFirst(root, tables, states, n + 1);
    assert RefreshedAt(root, tables, states, n);
    StampIsFirst(tables[n], root);
    if BasisOf(states[n], tables[n], root).rootMatches {
      var stamp := StampOf(tables[n], root).value;
      assert FirstSeenAs(tables, n + 1, root, stamp) && ShownAs(tables[n], root, stamp);
    }
  }

  // ---------------------------------------------------------------- one table

  /** Retained entries are the processes followed before that the table still shows. */
  lemma KeptIff(b: Basis, t: Tracking, table: Table, root: Pid, pid: Pid)
    requires b == BasisOf(t, table, root)
    ensures pid in b.kept <==> exists row | row in table :: row.pid == pid && WasFollowed(t.known, row)
    ensures pid in b.kept ==> b.kept[pid] == t.known[pid]
  {
    if pid in b.kept {
      var row :| row in table && row.pid == pid && row.group == t.known[pid].0 && row.stamp == t.known[pid].1;
      assert WasFollowed(t.known, row);
    }
  }

  lemma {:induction false} ChainOfPath(
    b: Basis, t: Tracking, table: Table, root: Pid, path: seq<Pid>, row: Row) returns (chain: seq<Row>)
    requires b == BasisOf(t, table, root) && row in table && row.group > 1 && row.stamp != ""
    requires Path(table, Eligible(), path) && path[0] in b.start && path[|path| - 1] == row.parent
    ensures Leads(t.known, table, root, b.rootMatches, row, chain)
    decreases |path|
  {
    if |path| == 1 {
      KeptIff(b, t, table, root, row.parent);
      chain := [row];
    } else {
      assert ChildOf(table, Eligible(), path[|path| - 2], path[|path| - 1]);
      var parent :| parent in table && parent.pid == row.parent && parent.parent == path[|path| - 2]
                    && Eligible()(parent);
      var front := path[..|path| - 1];
      PathFront(table, path);
      chain := ChainOfPath(b, t, table, root, front, parent);
      chain := chain + [row];
    }
  }

  lemma PathFront(table: Table, path: seq<Pid>)
    requires Path(table, Eligible(), path) && |path| > 1
    ensures Path(table, Eligible(), path[..|path| - 1])
  {
    var front := path[..|path| - 1];
    forall i | 0 <= i < |front| - 1
      ensures ChildOf(table, Eligible(), front[i], front[i + 1])
    {
      assert ChildOf(table, Eligible(), path[i], path[i + 1]);
    }
  }

  lemma {:induction false} ChainIsTracked(
    b: Basis, t: Tracking, table: Table, root: Pid, chain: seq<Row>, row: Row)
    requires b == BasisOf(t, table, root) && Leads(t.known, table, root, b.rootMatches, row, chain)
    ensures Tracked(b, table, root, row) && Reachable(table, Eligible(), b.start, row.pid)
    decreases |chain|
  {
    StartIsReachable(table, Eligible(), b.start);
    if |chain| == 1 {
      KeptIff(b, t, table, root, row.parent);
    } else {
      var front := chain[..|chain| - 1];
      ChainIsTracked(b, t, table, root, front, front[|front| - 1]);
    }
    if row.pid != root || !b.rootMatches {
      ReachableExtends(table, Eligible(), b.start, row);
    }
  }

  lemma TrackedIff(b: Basis, t: Tracking, table: Table, root: Pid, row: Row)
    requires b == BasisOf(t, table, root)
    ensures Tracked(b, table, root, row) <==>
            row in table && exists chain :: Leads(t.known, table, root, b.rootMatches, row, chain)
  {
    if Tracked(b, table, root, row) {
      if row.pid == root && b.rootMatches {
        assert Leads(t.known, table, root, b.rootMatches, row, [row]);
      } else {
        var path :| Path(table, Eligible(), path) && path[0] in b.start && path[|path| - 1] == row.parent;
        var chain := ChainOfPath(b, t, table, root, path, row);
      }
    }
    if chain :| Leads(t.known, table, root, b.rootMatches, row, chain) {
      ChainIsTracked(b, t, table, root, chain, row);
    }
  }

  /** After a table the entries are those of the rows followed. */
  ghost predicate EntriesAre(known: Known, after: Known, table: Table, root: Pid, rootIsThere: bool) {
    forall pid, entry :: EntryIs(known, after, table, root, rootIsThere, pid, entry)
  }

  ghost predicate EntryIs(
    known: Known, after: Known, table: Table, root: Pid, rootIsThere: bool, pid: Pid, entry: (int, string))
  {
    (pid in after && after[pid] == entry) <==>
    exists row :: HasEntry(row, pid, entry) && IsFollowed(known, table, root, rootIsThere, row)
  }

  predicate HasEntry(row: Row, pid: Pid, entry: (int, string)) {
    row.pid == pid && row.group == entry.0 && row.stamp == entry.1
  }

  lemma FollowedIff(t: Tracking, table: Table, root: Pid, after: Tracking)
    requires UniquePids(table) && Refreshed(t, table, root, after)
    ensures EntriesAre(t.known, after.known, table, root, BasisOf(t, table, root).rootMatches)
  {
    var b := BasisOf(t, table, root);
    forall pid, entry
      ensures EntryIs(t.known, after.known, table, root, b.rootMatches, pid, entry)
    {
      if pid in after.known && after.known[pid] == entry {
        EntryIsFollowed(t, table, root, after, pid);
      }
      if row :| HasEntry(row, pid, entry) && IsFollowed(t.known, table, root, b.rootMatches, row) {
        FollowedIsEntry(t, table, root, after, row);
      }
    }
  }

  lemma EntryIsFollowed(t: Tracking, table: Table, root: Pid, after: Tracking, pid: Pid)
    requires Refreshed(t, table, root, after) && pid in after.known
    ensures exists row :: HasEntry(row, pid, after.known[pid])
                          && IsFollowed(t.known, table, root, BasisOf(t, table, root).rootMatches, row)
  {
    var b := BasisOf(t, table, root);
    assert Justified(b, table, root, pid, after.known[pid]);
    if pid in b.kept && after.known[pid] == b.kept[pid] {
      var row :| row in table && row.pid == pid && row.group == t.known[pid].0 && row.stamp == t.known[pid].1;
      assert HasEntry(row, pid, after.known[pid]) && WasFollowed(t.known, row);
    } else {
      var row: Row :| row.pid == pid && Tracked(b, table, root, row) && after.known[pid] == (row.group, row.stamp);
      TrackedIff(b, t, table, root, row);
      assert HasEntry(row, pid, after.known[pid]);
    }
  }

  lemma FollowedIsEntry(t: Tracking, table: Table, root: Pid, after: Tracking, row: Row)
    requires UniquePids(table) && Refreshed(t, table, root, after)
    requires IsFollowed(t.known, table, root, BasisOf(t, table, root).rootMatches, row)
    ensures row.pid in after.known && after.known[row.pid] == (row.group, row.stamp)
  {
    var b := BasisOf(t, table, root);
    KeptIff(b, t, table, root, row.pid);
    TrackedIff(b, t, table, root, row);
    assert row.pid in after.known;
    EntryIsFollowed(t, table, root, after, row.pid);
    var seen :| HasEntry(seen, row.pid, after.known[row.pid]) && IsFollowed(t.known, table, root, b.rootMatches, seen);
    var i :| 0 <= i < |table| && table[i] == row;
    var j :| 0 <= j < |table| && table[j] == seen;
  }

  // ---------------------------------------------------------------- a whole run

  /**
    Complete and exact. Over any sequence of tables, each listing a pid once, the
    registry holds after each of them exactly the processes that were followed
    before and are still there, the root while it is the one first seen, and all
    that descend from these by rows with a group and a stamp of their own.
   */
  lemma RegistryFollows(root: Pid, tables: seq<Table>, states: seq<Tracking>, n: nat)
    requires RegistryRun(root, tables, states) && n < |tables| && UniquePids(tables[n])
    ensures states[0].known == map[]
    ensures EntriesAre(states[n].known, states[n + 1].known, tables[n], root, RootIsThere(tables, n, root))
  {
    RootMatchesIff(root, tables, states, n);
    assert RefreshedAt(root, tables, states, n);
    FollowedIff(states[n], tables[n], root, states[n + 1]);
  }

  /** The groups to signal are then those of exactly these processes. */
  lemma GroupsAreFollowed(known: Known, after: Known, table: Table, root: Pid, rootIsThere: bool)
    requires EntriesAre(known, after, table, root, rootIsThere)
    ensures (set pid | pid in after :: after[pid].0)
         == set row | row in table && IsFollowed(known, table, root, rootIsThere, row) :: row.group
  {
    var groups := set pid | pid in after :: after[pid].0;
    var followed := set row | row in table && IsFollowed(known, table, root, rootIsThere, row) :: row.group;
    forall g | g in groups
      ensures g in followed
    {
      var pid :| pid in after && after[pid].0 == g;
      assert EntryIs(known, after, table, root, rootIsThere, pid, after[pid]);
      var row :| HasEntry(row, pid, after[pid]) && IsFollowed(known, table, root, rootIsThere, row);
      assert row in table && row.group == g;
    }
    forall g | g in followed
      ensures g in groups
    {
      var row :| row in table && IsFollowed(known, table, root, rootIsThere, row) && row.group == g;
      assert HasEntry(row, row.pid, (row.group, row.stamp));
      assert EntryIs(known, after, table, root, rootIsThere, row.pid, (row.group, row.stamp));
      assert row.pid in after && after[row.pid] == (row.group, row.stamp);
    }
  }
}

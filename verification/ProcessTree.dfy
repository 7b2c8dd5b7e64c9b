/**
  Descendants of the worker in process tables: the groups below a root in one
  table, and a registry kept across many tables by identity rather than by pid.
 */
module ProcessTree {
  import opened Common

  type Pid = nat

  datatype Row = Row(pid: Pid, parent: Pid, group: int, stamp: string)

  type Table = seq<Row>

  predicate UniquePids(table: Table) {
    forall i, j | 0 <= i < j < |table| :: table[i].pid != table[j].pid
  }

  /** A path of parent-to-child rows of one table, using only rows the filter admits. */
  ghost predicate Path(table: Table, admit: Row -> bool, path: seq<Pid>) {
    && path != []
    && forall i | 0 <= i < |path| - 1 :: ChildOf(table, admit, path[i], path[i + 1])
  }

  predicate ChildOf(table: Table, admit: Row -> bool, parent: Pid, pid: Pid) {
    exists row | row in table :: row.pid == pid && row.parent == parent && admit(row)
  }

  ghost predicate Reachable(table: Table, admit: Row -> bool, start: set<Pid>, pid: Pid) {
    exists path :: Path(table, admit, path) && path[0] in start && path[|path| - 1] == pid
  }

  /** Closed under the admitted rows. */
  predicate Closed(table: Table, admit: Row -> bool, pids: set<Pid>) {
    forall row | row in table && admit(row) && row.parent in pids :: row.pid in pids
  }

  lemma {:induction false} PathStaysInside(table: Table, admit: Row -> bool, pids: set<Pid>, path: seq<Pid>)
    requires Closed(table, admit, pids) && Path(table, admit, path) && path[0] in pids
    ensures path[|path| - 1] in pids
    decreases |path|
  {
    if |path| > 1 {
      var front := path[..|path| - 1];
      assert ChildOf(table, admit, path[|path| - 2], path[|path| - 1]);
      PathStaysInside(table, admit, pids, front);
    }
  }

  lemma ReachableExtends(table: Table, admit: Row -> bool, start: set<Pid>, row: Row)
    requires row in table && admit(row) && Reachable(table, admit, start, row.parent)
    ensures Reachable(table, admit, start, row.pid)
  {
    var path :| Path(table, admit, path) && path[0] in start && path[|path| - 1] == row.parent;
    var longer := path + [row.pid];
    assert ChildOf(table, admit, row.parent, row.pid);
    forall i | 0 <= i < |longer| - 1
      ensures ChildOf(table, admit, longer[i], longer[i + 1])
    {
      if i < |path| - 1 {
        assert ChildOf(table, admit, path[i], path[i + 1]);
      }
    }
    assert Path(table, admit, longer);
  }

  lemma StartIsReachable(table: Table, admit: Row -> bool, start: set<Pid>)
    ensures forall pid | pid in start :: Reachable(table, admit, start, pid)
  {
    forall pid | pid in start
      ensures Reachable(table, admit, start, pid)
    {
      assert Path(table, admit, [pid]);
    }
  }

  /** A closed set between the start and the reachable pids is exactly the reachable pids: the least fixpoint. */
  lemma LeastFixpoint(table: Table, admit: Row -> bool, start: set<Pid>, pids: set<Pid>)
    requires start <= pids && Closed(table, admit, pids)
    requires forall pid | pid in pids :: Reachable(table, admit, start, pid)
    ensures forall pid :: pid in pids <==> Reachable(table, admit, start, pid)
  {
    forall pid | Reachable(table, admit, start, pid)
      ensures pid in pids
    {
      var path :| Path(table, admit, path) && path[0] in start && path[|path| - 1] == pid;
      PathStaysInside(table, admit, pids, path);
    }
  }

  function Pids(table: Table): set<Pid> {
    set row | row in table :: row.pid
  }

  function Any(): Row -> bool {
    (row: Row) => true
  }

  /** Only the rows of a table matter, not their order. */
  lemma OrderIsIrrelevant(a: Table, b: Table, admit: Row -> bool, start: set<Pid>, pid: Pid)
    requires forall row :: row in a <==> row in b
    ensures Reachable(a, admit, start, pid) <==> Reachable(b, admit, start, pid)
  {
    forall path
      ensures Path(a, admit, path) <==> Path(b, admit, path)
    {
      forall parent, child
        ensures ChildOf(a, admit, parent, child) <==> ChildOf(b, admit, parent, child)
      {
      }
    }
  }

  // ---------------------------------------------------------------- the groups below a root

  /** The groups above 1 of every process strictly below the root. */
  ghost function GroupsBelow(table: Table, root: Pid): set<int> {
    set row | row in table && row.group > 1 && row.pid != root && Reachable(table, Any(), {root}, row.pid) :: row.group
  }

  function GroupsOf(table: Table, pids: set<Pid>): set<int> {
    set row | row in table && row.group > 1 && row.pid in pids :: row.group
  }

  /** What both loops keep: everything found so far is reachable, and the groups are those of what was found. */
  ghost predicate Found(table: Table, root: Pid, descendants: set<Pid>, groups: set<int>) {
    && root in descendants && root in groups
    && descendants <= Pids(table) + {root}
    && (forall pid | pid in descendants :: Reachable(table, Any(), {root}, pid))
    && groups <= {root} + GroupsOf(table, descendants - {root})
    && (UniquePids(table) ==> groups == {root} + GroupsOf(table, descendants - {root}))
  }

  method ProcessTreeGroups(table: Table, root: Pid) returns (groups: set<int>)
    ensures root in groups && groups <= {root} + GroupsBelow(table, root)
    ensures UniquePids(table) ==> groups == {root} + GroupsBelow(table, root)
  {
    groups := {root};
    var descendants := {root};
    StartIsReachable(table, Any(), {root});
    var changed := true;
    while changed
      invariant Found(table, root, descendants, groups)
      invariant !changed ==> Closed(table, Any(), descendants)
      decreases Pids(table) + {root} - descendants, changed
    {
      descendants, groups, changed := Pass(table, root, descendants, groups);
    }
    GroupsAreComplete(table, root, descendants, groups);
  }

  lemma GroupsAreComplete(table: Table, root: Pid, descendants: set<Pid>, groups: set<int>)
    requires Found(table, root, descendants, groups) && Closed(table, Any(), descendants)
    ensures root in groups && groups <= {root} + GroupsBelow(table, root)
    ensures UniquePids(table) ==> groups == {root} + GroupsBelow(table, root)
  {
    LeastFixpoint(table, Any(), {root}, descendants);
    GroupsOfReachable(table, root, descendants);
  }

  lemma GroupsOfReachable(table: Table, root: Pid, descendants: set<Pid>)
    requires forall pid :: pid in descendants <==> Reachable(table, Any(), {root}, pid)
    ensures GroupsOf(table, descendants - {root}) == GroupsBelow(table, root)
  {
    forall row | row in table
      ensures row.pid in descendants - {root} <==> row.pid != root && Reachable(table, Any(), {root}, row.pid)
    {
    }
  }

  /** One pass over the rows. */
  method Pass(table: Table, root: Pid, known: set<Pid>, soFar: set<int>)
    returns (descendants: set<Pid>, groups: set<int>, changed: bool)
    requires Found(table, root, known, soFar)
    ensures Found(table, root, descendants, groups) && known <= descendants
    ensures changed ==> known < descendants
    ensures !changed ==> descendants == known && Closed(table, Any(), descendants)
  {
    descendants, groups, changed := known, soFar, false;
    for i := 0 to |table|
      invariant Found(table, root, descendants, groups) && known <= descendants
      invariant changed ==> known < descendants
      invariant !changed ==> descendants == known
      invariant !changed ==> forall k | 0 <= k < i && table[k].parent in known :: table[k].pid in known
    {
      var row := table[i];
      if row.parent in descendants && row.pid !in descendants {
        FoundGrows(table, root, descendants, groups, i);
        descendants := descendants + {row.pid};
        if row.group > 1 {
          groups := groups + {row.group};
        }
        changed := true;
      }
    }
  }

  lemma FoundGrows(table: Table, root: Pid, descendants: set<Pid>, groups: set<int>, i: nat)
    requires Found(table, root, descendants, groups)
    requires i < |table| && table[i].parent in descendants && table[i].pid !in descendants
    ensures Found(table, root, descendants + {table[i].pid},
                  if table[i].group > 1 then groups + {table[i].group} else groups)
  {
    ReachableExtends(table, Any(), {root}, table[i]);
    GrowGroups(table, descendants - {root}, i);
    assert descendants + {table[i].pid} - {root} == descendants - {root} + {table[i].pid};
    assert table[i].pid in Pids(table);
  }

  lemma GrowGroups(table: Table, pids: set<Pid>, i: nat)
    requires i < |table| && table[i].pid !in pids
    ensures var added := if table[i].group > 1 then {table[i].group} else {};
            && GroupsOf(table, pids) + added <= GroupsOf(table, pids + {table[i].pid})
            && (UniquePids(table) ==> GroupsOf(table, pids + {table[i].pid}) == GroupsOf(table, pids) + added)
  {
    var more := pids + {table[i].pid};
    forall g | g in GroupsOf(table, pids)
      ensures g in GroupsOf(table, more)
    {
      var row :| row in table && row.group > 1 && row.pid in pids && row.group == g;
      assert row.pid in more;
    }
    if table[i].group > 1 {
      assert table[i] in table && table[i].pid in more;
    }
    if UniquePids(table) {
      forall g | g in GroupsOf(table, more)
        ensures g in GroupsOf(table, pids) || (table[i].group > 1 && g == table[i].group)
      {
        var row :| row in table && row.group > 1 && row.pid in more && row.group == g;
        var k :| 0 <= k < |table| && table[k] == row;
      }
    }
  }

  // ---------------------------------------------------------------- the registry

  /** Rows a process may be tracked by: a group of its own and a start stamp. */
  function Eligible(): Row -> bool {
    (row: Row) => row.group > 1 && row.stamp != ""
  }

  /** A process is known by its group and start stamp besides its pid. */
  type Known = map<Pid, (int, string)>

  predicate StillThere(table: Table, pid: Pid, entry: (int, string)) {
    exists row | row in table :: row.pid == pid && row.group == entry.0 && row.stamp == entry.1
  }

  function Retained(known: Known, table: Table): Known {
    map pid | pid in known && StillThere(table, pid, known[pid]) :: known[pid]
  }

  /** The stamp of the first row of this pid. */
  function StampOf(table: Table, pid: Pid): Option<string> {
    if table == [] then None
    else if table[0].pid == pid then Some(table[0].stamp)
    else StampOf(table[1..], pid)
  }

  datatype Tracking = Tracking(known: Known, rootStamp: Option<string>)

  function RootStampAfter(t: Tracking, table: Table, root: Pid): Option<string> {
    if t.rootStamp.None? then StampOf(table, root) else t.rootStamp
  }

  predicate RootMatches(t: Tracking, table: Table, root: Pid) {
    StampOf(table, root).Some? && StampOf(table, root) == RootStampAfter(t, table, root)
  }

  /** What a refresh starts from: the retained entries, and the root while it is the one first seen under its pid. */
  datatype Basis = Basis(kept: Known, rootMatches: bool, start: set<Pid>)

  function BasisOf(t: Tracking, table: Table, root: Pid): Basis {
    var kept, matches := Retained(t.known, table), RootMatches(t, table, root);
    Basis(kept, matches, kept.Keys + if matches then {root} else {})
  }

  ghost predicate Tracked(b: Basis, table: Table, root: Pid, row: Row) {
    && row in table && Eligible()(row)
    && ((row.pid == root && b.rootMatches) || Reachable(table, Eligible(), b.start, row.parent))
  }

  /** An entry that was retained as it is, or is that of a tracked row. */
  ghost predicate Justified(b: Basis, table: Table, root: Pid, pid: Pid, entry: (int, string)) {
    || (pid in b.kept && entry == b.kept[pid])
    || exists row: Row :: row.pid == pid && Tracked(b, table, root, row) && entry == (row.group, row.stamp)
  }

  /** What a refresh leaves: the retained entries and every eligible row under the closure of its start. */
  ghost predicate Refreshed(t: Tracking, table: Table, root: Pid, after: Tracking) {
    var b := BasisOf(t, table, root);
    && after.rootStamp == RootStampAfter(t, table, root)
    && (forall pid :: pid in after.known <==>
          pid in b.kept || exists row: Row :: row.pid == pid && Tracked(b, table, root, row))
    && (forall pid | pid in after.known :: Justified(b, table, root, pid, after.known[pid]))
  }

  /** The working state of one refresh: ancestors found and entries made so far. */
  ghost predicate AncestorsFound(b: Basis, table: Table, ancestors: set<Pid>) {
    && b.start <= ancestors <= Pids(table) + b.start
    && (forall pid | pid in ancestors :: Reachable(table, Eligible(), b.start, pid))
  }

  ghost predicate EntriesMade(b: Basis, table: Table, root: Pid, known: Known) {
    && b.kept.Keys <= known.Keys
    && (forall pid | pid in known :: Justified(b, table, root, pid, known[pid]))
  }

  ghost predicate Closing(b: Basis, table: Table, root: Pid, known: Known, ancestors: set<Pid>) {
    AncestorsFound(b, table, ancestors) && EntriesMade(b, table, root, known)
  }

  predicate RowDone(root: Pid, rootMatches: bool, tracked: set<Pid>, ancestors: set<Pid>, row: Row) {
    row.group > 1 && row.stamp != "" && ((row.pid == root && rootMatches) || row.parent in ancestors)
    ==> row.pid in tracked && row.pid in ancestors
  }

  predicate RowsDone(
    root: Pid, rootMatches: bool, tracked: set<Pid>, ancestors: set<Pid>, table: Table, n: nat)
  {
    n <= |table| && forall k | 0 <= k < n :: RowDone(root, rootMatches, tracked, ancestors, table[k])
  }

  lemma NextRowDone(
    root: Pid, rootMatches: bool, tracked: set<Pid>, more: set<Pid>, ancestors: set<Pid>, table: Table, i: nat)
    requires i < |table| && RowsDone(root, rootMatches, tracked, ancestors, table, i) && tracked <= more
    requires RowDone(root, rootMatches, more, ancestors, table[i])
    ensures RowsDone(root, rootMatches, more, ancestors, table, i + 1)
  {
    forall k | 0 <= k < i
      ensures RowDone(root, rootMatches, more, ancestors, table[k])
    {
      assert RowDone(root, rootMatches, tracked, ancestors, table[k]);
    }
  }

  class ProcessRegistry {
    var known: Known
    var rootStamp: Option<string>

    constructor ()
      ensures View() == Tracking(map[], None)
    {
      known, rootStamp := map[], None;
    }

    function View(): Tracking
      reads this
    {
      Tracking(known, rootStamp)
    }

    /** One look at the process table; without a table nothing changes. */
    method Refresh(root: Pid, output: Option<Table>) returns (ok: bool)
      modifies this
      ensures ok <==> output.Some?
      ensures !ok ==> View() == old(View())
      ensures ok ==> Refreshed(old(View()), output.value, root, View())
    {
      if output.None? {
        return false;
      }
      var table := output.value;
      ghost var t := View();
      known := Retained(known, table);
      var ancestors := known.Keys;
      var currentStamp := StampOf(table, root);
      if rootStamp.None? {
        rootStamp := currentStamp;
      }
      var rootMatches := currentStamp.Some? && currentStamp == rootStamp;
      if rootMatches {
        ancestors := ancestors + {root};
      }
      ghost var b := BasisOf(t, table, root);
      assert ancestors == b.start && known == b.kept && rootMatches == b.rootMatches;
      StartIsReachable(table, Eligible(), b.start);
      var changed := true;
      while changed
        invariant Closing(b, table, root, known, ancestors)
        invariant rootStamp == RootStampAfter(t, table, root)
        invariant !changed ==> forall row | row in table :: RowDone(root, rootMatches, known.Keys, ancestors, row)
        decreases Pids(table) + b.start - ancestors, changed
      {
        ancestors, changed := TrackPass(table, root, rootMatches, ancestors, b);
      }
      ClosureReached(b, table, root, known, ancestors);
      return true;
    }

    method TrackPass(table: Table, root: Pid, rootMatches: bool, before: set<Pid>, ghost b: Basis)
      returns (ancestors: set<Pid>, changed: bool)
      requires rootMatches == b.rootMatches && (rootMatches ==> root in b.start)
      requires Closing(b, table, root, known, before)
      modifies this`known
      ensures Closing(b, table, root, known, ancestors) && before <= ancestors
      ensures changed ==> before < ancestors
      ensures !changed ==> ancestors == before
      ensures !changed ==> forall row | row in table :: RowDone(root, rootMatches, known.Keys, ancestors, row)
    {
      ancestors, changed := before, false;
      for i := 0 to |table|
        invariant Closing(b, table, root, known, ancestors) && before <= ancestors
        invariant changed ==> before < ancestors
        invariant !changed ==> ancestors == before
        invariant !changed ==> RowsDone(root, rootMatches, known.Keys, ancestors, table, i)
      {
        var row := table[i];
        ghost var tracked := known.Keys;
        if ((row.pid == root && rootMatches) || row.parent in ancestors) && row.group > 1 && row.stamp != "" {
          ClosingGrows(b, table, root, known, ancestors, row);
          known := known[row.pid := (row.group, row.stamp)];
          changed := changed || row.pid !in ancestors;
          ancestors := ancestors + {row.pid};
        }
        if !changed {
          NextRowDone(root, rootMatches, tracked, known.Keys, ancestors, table, i);
        }
      }
    }

    /** The groups to signal: those of the processes still identified after a fresh look. */
    method Signal(root: Pid, output: Option<Table>) returns (groups: set<int>)
      modifies this
      ensures output.None? ==> groups == {} && View() == old(View())
      ensures output.Some? ==>
                Refreshed(old(View()), output.value, root, View()) && groups == set pid | pid in known :: known[pid].0
    {
      var ok := Refresh(root, output);
      if !ok {
        return {};
      }
      groups := set pid | pid in known :: known[pid].0;
    }
  }

  lemma RowIsTracked(b: Basis, table: Table, root: Pid, ancestors: set<Pid>, row: Row)
    requires row in table && Eligible()(row) && (b.rootMatches ==> root in b.start)
    requires forall pid | pid in ancestors :: Reachable(table, Eligible(), b.start, pid)
    requires (row.pid == root && b.rootMatches) || row.parent in ancestors
    ensures Tracked(b, table, root, row)
    ensures Reachable(table, Eligible(), b.start, row.pid)
    ensures Justified(b, table, root, row.pid, (row.group, row.stamp))
  {
    StartIsReachable(table, Eligible(), b.start);
    if row.parent in ancestors {
      ReachableExtends(table, Eligible(), b.start, row);
    }
  }

  lemma AncestorsGrow(b: Basis, table: Table, ancestors: set<Pid>, row: Row)
    requires AncestorsFound(b, table, ancestors) && row in table
    requires Reachable(table, Eligible(), b.start, row.pid)
    ensures AncestorsFound(b, table, ancestors + {row.pid})
  {
    assert row.pid in Pids(table);
  }

  lemma EntriesGrow(b: Basis, table: Table, root: Pid, known: Known, row: Row)
    requires EntriesMade(b, table, root, known)
    requires Justified(b, table, root, row.pid, (row.group, row.stamp))
    ensures EntriesMade(b, table, root, known[row.pid := (row.group, row.stamp)])
  {
  }

  lemma ClosingGrows(b: Basis, table: Table, root: Pid, known: Known, ancestors: set<Pid>, row: Row)
    requires Closing(b, table, root, known, ancestors) && row in table && Eligible()(row)
    requires b.rootMatches ==> root in b.start
    requires (row.pid == root && b.rootMatches) || row.parent in ancestors
    ensures Closing(b, table, root, known[row.pid := (row.group, row.stamp)], ancestors + {row.pid})
  {
    RowIsTracked(b, table, root, ancestors, row);
    AncestorsGrow(b, table, ancestors, row);
    EntriesGrow(b, table, root, known, row);
  }

  lemma ClosureReached(b: Basis, table: Table, root: Pid, known: Known, ancestors: set<Pid>)
    requires Closing(b, table, root, known, ancestors)
    requires forall row | row in table :: RowDone(root, b.rootMatches, known.Keys, ancestors, row)
    ensures forall pid :: pid in known <==>
              pid in b.kept || exists row: Row :: row.pid == pid && Tracked(b, table, root, row)
  {
    forall row | row in table && Eligible()(row) && row.parent in ancestors
      ensures row.pid in ancestors
    {
      assert RowDone(root, b.rootMatches, known.Keys, ancestors, row);
    }
    LeastFixpoint(table, Eligible(), b.start, ancestors);
    forall row | Tracked(b, table, root, row)
      ensures row.pid in known
    {
      assert RowDone(root, b.rootMatches, known.Keys, ancestors, row);
    }
  }

  // ---------------------------------------------------------------- identity across many tables

  /** A process, as opposed to a number: its pid and its start stamp. */
  datatype Identity = Identity(pid: Pid, stamp: string)

  predicate Shows(table: Table, id: Identity) {
    exists row | row in table :: row.pid == id.pid && row.stamp == id.stamp
  }

  /** One table shows both processes, the second as a child of the first. */
  predicate ShowsChild(table: Table, parent: Identity, child: Identity) {
    && Shows(table, parent)
    && exists row | row in table :: row.pid == child.pid && row.stamp == child.stamp && row.parent == parent.pid
  }

  /** A chain of observed parent-to-child steps between processes. */
  ghost predicate Lineage(tables: seq<Table>, chain: seq<Identity>) {
    && chain != []
    && forall i | 0 <= i < |chain| - 1 :: ObservedChild(tables, chain[i], chain[i + 1])
  }

  predicate ObservedChild(tables: seq<Table>, parent: Identity, child: Identity) {
    exists table | table in tables :: ShowsChild(table, parent, child)
  }

  ghost predicate Descends(tables: seq<Table>, ancestor: Identity, id: Identity) {
    exists chain :: Lineage(tables, chain) && chain[0] == ancestor && chain[|chain| - 1] == id
  }

  lemma DescendsItself(tables: seq<Table>, id: Identity)
    ensures Descends(tables, id, id)
  {
    assert Lineage(tables, [id]);
  }

  lemma DescendsLater(tables: seq<Table>, later: Table, ancestor: Identity, id: Identity)
    requires Descends(tables, ancestor, id)
    ensures Descends(tables + [later], ancestor, id)
  {
    var chain :| Lineage(tables, chain) && chain[0] == ancestor && chain[|chain| - 1] == id;
    forall i | 0 <= i < |chain| - 1
      ensures ObservedChild(tables + [later], chain[i], chain[i + 1])
    {
      assert ObservedChild(tables, chain[i], chain[i + 1]);
    }
    assert Lineage(tables + [later], chain);
  }

  lemma DescendsFurther(tables: seq<Table>, ancestor: Identity, parent: Identity, child: Identity)
    requires Descends(tables, ancestor, parent) && ObservedChild(tables, parent, child)
    ensures Descends(tables, ancestor, child)
  {
    var chain :| Lineage(tables, chain) && chain[0] == ancestor && chain[|chain| - 1] == parent;
    var longer := chain + [child];
    forall i | 0 <= i < |longer| - 1
      ensures ObservedChild(tables, longer[i], longer[i + 1])
    {
      if i < |chain| - 1 {
        assert ObservedChild(tables, chain[i], chain[i + 1]);
      }
    }
    assert Lineage(tables, longer);
  }

  /** In this table the pid stands for a process that descends from the root process. */
  ghost predicate GenuineIn(tables: seq<Table>, table: Table, root: Identity, pid: Pid) {
    exists stamp :: Shows(table, Identity(pid, stamp)) && Descends(tables, root, Identity(pid, stamp))
  }

  lemma {:induction false} PathIsGenuine(
    tables: seq<Table>, table: Table, root: Identity, start: set<Pid>, path: seq<Pid>)
    requires table in tables && Path(table, Eligible(), path) && path[0] in start
    requires forall pid | pid in start :: GenuineIn(tables, table, root, pid)
    ensures GenuineIn(tables, table, root, path[|path| - 1])
    decreases |path|
  {
    if |path| > 1 {
      var front := path[..|path| - 1];
      var parent, pid := path[|path| - 2], path[|path| - 1];
      assert ChildOf(table, Eligible(), parent, pid);
      PathIsGenuine(tables, table, root, start, front);
      var row :| row in table && row.pid == pid && row.parent == parent && Eligible()(row);
      RowIsGenuine(tables, table, root, row);
    }
  }

  lemma RowIsGenuine(tables: seq<Table>, table: Table, root: Identity, row: Row)
    requires table in tables && row in table && GenuineIn(tables, table, root, row.parent)
    ensures Descends(tables, root, Identity(row.pid, row.stamp))
    ensures GenuineIn(tables, table, root, row.pid)
  {
    var stamp :| Shows(table, Identity(row.parent, stamp)) && Descends(tables, root, Identity(row.parent, stamp));
    var parent, child := Identity(row.parent, stamp), Identity(row.pid, row.stamp);
    assert ShowsChild(table, parent, child);
    assert ObservedChild(tables, parent, child);
    DescendsFurther(tables, root, parent, child);
    assert Shows(table, child);
  }

  /** Every entry is the process first seen as the root or a true descendant of it, shown by the last table. */
  ghost predicate Genuine(tables: seq<Table>, root: Pid, t: Tracking) {
    && (t.rootStamp.None? ==> t.known == map[])
    && forall pid | pid in t.known ::
         && tables != [] && StillThere(tables[|tables| - 1], pid, t.known[pid])
         && t.known[pid].0 > 1 && t.known[pid].1 != ""
         && Descends(tables, Identity(root, t.rootStamp.value), Identity(pid, t.known[pid].1))
  }

  lemma {:induction false} StampIsShown(table: Table, pid: Pid)
    ensures StampOf(table, pid).Some? ==> Shows(table, Identity(pid, StampOf(table, pid).value))
    decreases |table|
  {
    if table != [] {
      if table[0].pid == pid {
        assert table[0] in table;
      } else {
        StampIsShown(table[1..], pid);
        if StampOf(table[1..], pid).Some? {
          var row :| row in table[1..] && row.pid == pid && row.stamp == StampOf(table, pid).value;
          assert row in table;
        }
      }
    }
  }

  /** The pids a refresh starts from stand for genuine processes. */
  lemma StartIsGenuine(tables: seq<Table>, root: Pid, t: Tracking, table: Table)
    requires Genuine(tables, root, t)
    requires RootStampAfter(t, table, root).Some?
    ensures var id := Identity(root, RootStampAfter(t, table, root).value);
            && (forall pid | pid in BasisOf(t, table, root).start :: GenuineIn(tables + [table], table, id, pid))
            && (forall pid | pid in BasisOf(t, table, root).kept ::
                  Descends(tables + [table], id, Identity(pid, t.known[pid].1)))
  {
    var id := Identity(root, RootStampAfter(t, table, root).value);
    forall pid | pid in BasisOf(t, table, root).kept
      ensures Descends(tables + [table], id, Identity(pid, t.known[pid].1))
      ensures GenuineIn(tables + [table], table, id, pid)
    {
      DescendsLater(tables, table, id, Identity(pid, t.known[pid].1));
      assert Shows(table, Identity(pid, t.known[pid].1));
    }
    if RootMatches(t, table, root) {
      StampIsShown(table, root);
      DescendsItself(tables + [table], id);
      assert GenuineIn(tables + [table], table, id, root);
    }
  }

  lemma TrackedIsGenuine(tables: seq<Table>, root: Pid, t: Tracking, table: Table, row: Row)
    requires Genuine(tables, root, t) && Tracked(BasisOf(t, table, root), table, root, row)
    requires RootStampAfter(t, table, root).Some?
    requires UniquePids(table)
    ensures Descends(tables + [table], Identity(root, RootStampAfter(t, table, root).value),
                     Identity(row.pid, row.stamp))
  {
    var b, id := BasisOf(t, table, root), Identity(root, RootStampAfter(t, table, root).value);
    StartIsGenuine(tables, root, t, table);
    assert table in tables + [table];
    if row.pid == root && b.rootMatches {
      StampIsUnique(table, row);
      DescendsItself(tables + [table], id);
    } else {
      var path :| Path(table, Eligible(), path) && path[0] in b.start && path[|path| - 1] == row.parent;
      PathIsGenuine(tables + [table], table, id, b.start, path);
      RowIsGenuine(tables + [table], table, id, row);
    }
  }

  lemma {:induction false} StampIsUnique(table: Table, row: Row)
    requires UniquePids(table) && row in table
    ensures StampOf(table, row.pid) == Some(row.stamp)
    decreases |table|
  {
    var i :| 0 <= i < |table| && table[i] == row;
    if i > 0 {
      assert table[0].pid != row.pid;
      assert table[1..][i - 1] == row;
      StampIsUnique(table[1..], row);
    }
  }

  /** A refresh keeps the registry genuine. */
  lemma RefreshStaysGenuine(tables: seq<Table>, root: Pid, t: Tracking, table: Table, after: Tracking)
    requires Genuine(tables, root, t) && UniquePids(table) && Refreshed(t, table, root, after)
    ensures Genuine(tables + [table], root, after)
  {
    var b, all := BasisOf(t, table, root), tables + [table];
    if after.rootStamp.None? {
      NoRootNothingTracked(t, table, root, after);
    } else {
      StartIsGenuine(tables, root, t, table);
      forall pid | pid in after.known
        ensures StillThere(table, pid, after.known[pid])
        ensures after.known[pid].0 > 1 && after.known[pid].1 != ""
        ensures Descends(all, Identity(root, after.rootStamp.value), Identity(pid, after.known[pid].1))
      {
        assert Justified(b, table, root, pid, after.known[pid]);
        if pid in b.kept && after.known[pid] == b.kept[pid] {
        } else {
          var row: Row :| row.pid == pid && Tracked(b, table, root, row) && after.known[pid] == (row.group, row.stamp);
          TrackedIsGenuine(tables, root, t, table, row);
        }
      }
    }
  }

  lemma NothingFromNowhere(table: Table, admit: Row -> bool, pid: Pid)
    ensures !Reachable(table, admit, {}, pid)
  {
  }

  lemma NoRootNothingTracked(t: Tracking, table: Table, root: Pid, after: Tracking)
    requires t.rootStamp.None? ==> t.known == map[]
    requires Refreshed(t, table, root, after) && after.rootStamp.None?
    ensures after.known == map[]
  {
    var b := BasisOf(t, table, root);
    assert b.start == {};
    forall row: Row
      ensures !Tracked(b, table, root, row)
    {
      NothingFromNowhere(table, Eligible(), row.parent);
    }
    assert forall pid :: pid !in after.known;
  }

  /** A run of one registry: each state is a refresh of the one before. */
  ghost predicate RegistryRun(root: Pid, tables: seq<Table>, states: seq<Tracking>) {
    && |states| == |tables| + 1
    && states[0] == Tracking(map[], None)
    && forall i | 0 <= i < |tables| :: RefreshedAt(root, tables, states, i)
  }

  ghost predicate RefreshedAt(root: Pid, tables: seq<Table>, states: seq<Tracking>, i: nat)
    requires i < |tables| && i + 1 < |states|
  {
    Refreshed(states[i], tables[i], root, states[i + 1])
  }

  lemma GenuineNext(root: Pid, tables: seq<Table>, states: seq<Tracking>, n: nat)
    requires n < |tables| && n + 1 < |states| && RefreshedAt(root, tables, states, n) && UniquePids(tables[n])
    requires Genuine(tables[..n], root, states[n])
    ensures Genuine(tables[..n + 1], root, states[n + 1])
  {
    RefreshStaysGenuine(tables[..n], root, states[n], tables[n], states[n + 1]);
    assert tables[..n] + [tables[n]] == tables[..n + 1];
  }

  /**
    Over any sequence of process tables, each listing a pid once, every process
    in the registry is the original root or a true descendant of it, is the very
    process the last table shows under that pid, and has a group above 1.
   */
  lemma {:induction false} RegistryIsGenuine(root: Pid, tables: seq<Table>, states: seq<Tracking>, n: nat)
    requires RegistryRun(root, tables, states) && n <= |tables|
    requires forall i | 0 <= i < |tables| :: UniquePids(tables[i])
    ensures Genuine(tables[..n], root, states[n])
    decreases n
  {
    if n > 0 {
      RegistryIsGenuine(root, tables, states, n - 1);
      assert RefreshedAt(root, tables, states, n - 1);
      GenuineNext(root, tables, states, n - 1);
    }
  }

  /** An entry whose row kept its group and stamp stays, whoever its parent is now; otherwise the process is gone. */
  lemma TrackingSurvivesReparenting(t: Tracking, table: Table, root: Pid, after: Tracking, pid: Pid)
    requires UniquePids(table) && Refreshed(t, table, root, after) && pid in t.known
    ensures pid in after.known && after.known[pid] == t.known[pid] <==> StillThere(table, pid, t.known[pid])
  {
    var b := BasisOf(t, table, root);
    if StillThere(table, pid, t.known[pid]) {
      assert pid in b.kept;
      assert Justified(b, table, root, pid, after.known[pid]);
      var seen :| seen in table && seen.pid == pid && seen.group == t.known[pid].0 && seen.stamp == t.known[pid].1;
      forall row | row in table && row.pid == pid
        ensures row == seen
      {
        var i :| 0 <= i < |table| && table[i] == row;
        var j :| 0 <= j < |table| && table[j] == seen;
      }
    } else if pid in after.known {
      assert Justified(b, table, root, pid, after.known[pid]);
    }
  }
}

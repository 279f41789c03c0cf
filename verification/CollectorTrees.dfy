/**
 * Grouping collector processes into launch trees by walking each one to its highest
 * matching ancestor (scripts/collector-ops.ts).
 */
module CollectorTrees {
  import opened Prelude
  import opened Sorting

  datatype Proc = Proc(pid: int, parentPid: int, createdUtc: Option<string>, commandLine: string)

  datatype Tree = Tree(rootPid: int, pids: seq<int>, commandLine: string, createdUtc: Option<string>)

  type Table = map<int, Proc>

  function TableOf(procs: seq<Proc>): Table {
    if procs == [] then map[]
    else
      var last := procs[|procs| - 1];
      TableOf(procs[..|procs| - 1])[last.pid := last]
  }

  ghost predicate Keyed(t: Table) {
    forall pid :: pid in t ==> t[pid].pid == pid
  }

  ghost predicate UniquePids(procs: seq<Proc>) {
    forall i, j :: 0 <= i < j < |procs| ==> procs[i].pid != procs[j].pid
  }

  /** The matching process that launched `pid`, if the table has one. */
  function Parent(t: Table, pid: int): (p: Option<int>)
    requires pid in t
    ensures p.Some? ==> p.value in t
  {
    if t[pid].parentPid in t then Some(t[pid].parentPid) else None
  }

  /** The k-th ancestor, absent once the chain leaves the table. */
  function Ancestor(t: Table, pid: int, k: nat): (a: Option<int>)
    requires pid in t
    ensures a.Some? ==> a.value in t
  {
    if k == 0 then Some(pid)
    else
      var below := Ancestor(t, pid, k - 1);
      if below.None? then None else Parent(t, below.value)
  }

  /** The chain of ancestors leaves the table: `pid` neither is on a parent cycle nor leads into one. */
  ghost predicate ChainEnds(t: Table, pid: int)
    requires pid in t
  {
    exists k: nat :: Ancestor(t, pid, k).None?
  }

  ghost predicate ChainEndsAt(t: Table, pid: int, root: int)
    requires pid in t && root in t
  {
    Parent(t, root).None? && exists k: nat :: Ancestor(t, pid, k) == Some(root)
  }

  ghost predicate IsAncestorWithin(t: Table, pid: int, k: nat, q: int)
    requires pid in t
  {
    exists i: nat :: i <= k && Ancestor(t, pid, i) == Some(q)
  }

  /** The guarded walk: climb until there is no parent or the parent was already visited. */
  function Climb(t: Table, cur: int, seen: set<int>): (root: int)
    requires cur in t && seen <= t.Keys
    ensures root in t
    decreases t.Keys - seen
  {
    var parent := Parent(t, cur);
    if parent.None? || parent.value in seen then cur
    else Climb(t, parent.value, seen + {parent.value})
  }

  function Root(t: Table, pid: int): (root: int)
    requires pid in t
    ensures root in t
  {
    Climb(t, pid, {pid})
  }

  // ---- where the walk stops ----

  lemma {:induction false} AncestorsBelow(t: Table, pid: int, k: nat, n: nat)
    requires pid in t && n <= k && Ancestor(t, pid, k).Some?
    ensures Ancestor(t, pid, n).Some?
    decreases k
  {
    if n == k {
    } else {
      AncestorsBelow(t, pid, k - 1, n);
    }
  }

  lemma {:induction false} AncestorsRepeat(t: Table, pid: int, a: nat, b: nat, j: nat)
    requires pid in t && Ancestor(t, pid, a) == Ancestor(t, pid, b)
    ensures Ancestor(t, pid, a + j) == Ancestor(t, pid, b + j)
    decreases j
  {
    if j == 0 {
    } else {
      AncestorsRepeat(t, pid, a, b, j - 1);
    }
  }

  /** A chain that comes back to an earlier ancestor never leaves the table. */
  lemma {:induction false} RepeatNeverEnds(t: Table, pid: int, a: nat, b: nat, n: nat)
    requires pid in t && a < b && Ancestor(t, pid, a).Some? && Ancestor(t, pid, a) == Ancestor(t, pid, b)
    ensures Ancestor(t, pid, n).Some?
    decreases n
  {
    if n <= b {
      AncestorsBelow(t, pid, b, n);
    } else {
      RepeatNeverEnds(t, pid, a, b, n - (b - a));
      AncestorsRepeat(t, pid, a, b, n - b);
    }
  }

  /** The walk stops at an ancestor that has no parent, or whose parent is an ancestor met before. */
  lemma {:induction false} ClimbStops(t: Table, pid: int, k: nat, cur: int, seen: set<int>)
    returns (n: nat, back: nat)
    requires pid in t && cur in t && seen <= t.Keys
    requires Ancestor(t, pid, k) == Some(cur)
    requires forall q :: q in seen ==> IsAncestorWithin(t, pid, k, q)
    ensures var root := Climb(t, cur, seen);
            && Ancestor(t, pid, n) == Some(root)
            && (Parent(t, root).Some? ==> back <= n && Ancestor(t, pid, back) == Parent(t, root))
    decreases t.Keys - seen
  {
    var parent := Parent(t, cur);
    n, back := k, 0;
    if parent.Some? {
      assert Ancestor(t, pid, k + 1) == parent;
      if parent.value in seen {
        assert IsAncestorWithin(t, pid, k, parent.value);
        back :| back <= k && Ancestor(t, pid, back) == parent;
      } else {
        forall q | q in seen + {parent.value} ensures IsAncestorWithin(t, pid, k + 1, q) {
          assert q in seen ==> IsAncestorWithin(t, pid, k, q);
        }
        n, back := ClimbStops(t, pid, k + 1, parent.value, seen + {parent.value});
      }
    }
  }

  /** The walk ends at a process without a matching parent exactly when the chain leaves the table. */
  lemma RootIsParentless(t: Table, pid: int)
    requires pid in t
    ensures Parent(t, Root(t, pid)).None? <==> ChainEnds(t, pid)
    ensures exists n: nat :: Ancestor(t, pid, n) == Some(Root(t, pid))
  {
    assert Ancestor(t, pid, 0) == Some(pid);
    var n, back := ClimbStops(t, pid, 0, pid, {pid});
    assert Ancestor(t, pid, n + 1) == Parent(t, Root(t, pid));
    if Parent(t, Root(t, pid)).Some? {
      forall k: nat ensures Ancestor(t, pid, k).Some? {
        RepeatNeverEnds(t, pid, back, n + 1, k);
      }
    }
  }

  /** On a chain that ends, the root is the one parentless process the chain ends at. */
  lemma RootIsChainEnd(t: Table, pid: int, root: int)
    requires pid in t && root in t && ChainEnds(t, pid)
    ensures Root(t, pid) == root <==> ChainEndsAt(t, pid, root)
  {
    RootIsParentless(t, pid);
    var n: nat :| Ancestor(t, pid, n) == Some(Root(t, pid));
    if ChainEndsAt(t, pid, root) {
      var k: nat :| Ancestor(t, pid, k) == Some(root);
      if k < n {
        AncestorsBelow(t, pid, n, k + 1);
      } else if n < k {
        AncestorsBelow(t, pid, k, n + 1);
      }
    }
  }

  /** Every ancestor up to the `n`-th is there, and no two are the same. */
  ghost predicate AllDiffer(t: Table, pid: int, n: nat)
    requires pid in t
  {
    && (forall i: nat :: i <= n ==> Ancestor(t, pid, i).Some?)
    && (forall i: nat, j: nat :: i < j <= n ==> Ancestor(t, pid, i) != Ancestor(t, pid, j))
  }

  /** `root` is the `n`-th ancestor, and the first whose own parent is missing or was met on the way. */
  ghost predicate StopsAt(t: Table, pid: int, n: nat, root: int)
    requires pid in t && root in t
  {
    && AllDiffer(t, pid, n) && Ancestor(t, pid, n) == Some(root)
    && (Parent(t, root).None? || exists back: nat :: back <= n && Ancestor(t, pid, back) == Parent(t, root))
  }

  lemma {:induction false} ClimbStopsAt(t: Table, pid: int, k: nat, cur: int, seen: set<int>) returns (n: nat)
    requires pid in t && cur in t && seen <= t.Keys
    requires AllDiffer(t, pid, k) && Ancestor(t, pid, k) == Some(cur)
    requires forall q :: q in seen <==> IsAncestorWithin(t, pid, k, q)
    ensures StopsAt(t, pid, n, Climb(t, cur, seen))
    decreases t.Keys - seen
  {
    n := k;
    var parent := Parent(t, cur);
    if parent.Some? {
      assert Ancestor(t, pid, k + 1) == parent;
      if parent.value in seen {
        assert IsAncestorWithin(t, pid, k, parent.value);
      } else {
        forall q ensures q in seen + {parent.value} <==> IsAncestorWithin(t, pid, k + 1, q) {
          assert q in seen <==> IsAncestorWithin(t, pid, k, q);
        }
        assert !IsAncestorWithin(t, pid, k, parent.value);
        n := ClimbStopsAt(t, pid, k + 1, parent.value, seen + {parent.value});
      }
    }
  }

  /** On every table the root is the first ancestor whose own parent is missing or was met on the way. */
  lemma RootExactlyWhen(t: Table, pid: int, root: int)
    requires pid in t && root in t
    ensures Root(t, pid) == root <==> exists n: nat :: StopsAt(t, pid, n, root)
  {
    assert Ancestor(t, pid, 0) == Some(pid);
    forall q ensures q in {pid} <==> IsAncestorWithin(t, pid, 0, q) {
    }
    var n := ClimbStopsAt(t, pid, 0, pid, {pid});
    forall m: nat | StopsAt(t, pid, m, root) ensures Root(t, pid) == root {
      if m < n {
        StopsOnce(t, pid, m, root, n);
      } else if n < m {
        StopsOnce(t, pid, n, Root(t, pid), m);
      }
    }
  }

  /** Past where the walk stops the ancestors do not all differ. */
  lemma StopsOnce(t: Table, pid: int, n: nat, root: int, m: nat)
    requires pid in t && root in t && StopsAt(t, pid, n, root) && n < m
    ensures !AllDiffer(t, pid, m)
  {
    assert Ancestor(t, pid, n + 1) == Parent(t, root);
    if Parent(t, root).Some? {
      var back: nat :| back <= n && Ancestor(t, pid, back) == Parent(t, root);
      assert Ancestor(t, pid, back) == Ancestor(t, pid, n + 1);
    }
  }

  lemma {:induction false} ClimbMovesOn(t: Table, cur: int, seen: set<int>)
    requires cur in t && seen <= t.Keys && cur in seen
    ensures Climb(t, cur, seen) == cur || Climb(t, cur, seen) !in seen
    decreases t.Keys - seen
  {
    var parent := Parent(t, cur);
    if parent.None? || parent.value in seen {
    } else {
      ClimbMovesOn(t, parent.value, seen + {parent.value});
    }
  }

  /** The root of every process. */
  ghost function RootMap(t: Table): map<int, int> {
    map pid | pid in t :: Root(t, pid)
  }

  /** A process is its own root exactly when it has no matching parent or names itself as parent. */
  lemma OwnRoot(t: Table, pid: int)
    requires pid in t
    ensures Root(t, pid) == pid <==> Parent(t, pid) == None || Parent(t, pid) == Some(pid)
  {
    var parent := Parent(t, pid);
    if parent.Some? && parent.value != pid {
      ClimbMovesOn(t, parent.value, {pid} + {parent.value});
    }
  }

  // ---- the trees ----

  /** The processes whose walk ends at `root`. */
  ghost function Launched(roots: map<int, int>, root: int): set<int> {
    set q | q in roots && roots[q] == root
  }

  ghost function Image(roots: map<int, int>): set<int> {
    set pid | pid in roots :: roots[pid]
  }

  /** A tree lists each process of its root exactly once, in ascending order. */
  ghost predicate IsTree(t: Table, roots: map<int, int>, tree: Tree) {
    && tree.rootPid in t
    && tree.commandLine == t[tree.rootPid].commandLine && tree.createdUtc == t[tree.rootPid].createdUtc
    && AscendingBy(tree.pids, PidKey)
    && multiset(tree.pids) == multiset(Launched(roots, tree.rootPid))
  }

  ghost function RootPids(trees: seq<Tree>): set<int> {
    set i | 0 <= i < |trees| :: trees[i].rootPid
  }

  /** One tree for every root there is, in strictly ascending root order. */
  ghost predicate AreTrees(t: Table, roots: map<int, int>, trees: seq<Tree>) {
    && (forall i, j :: 0 <= i < j < |trees| ==> trees[i].rootPid < trees[j].rootPid)
    && (forall i :: 0 <= i < |trees| ==> IsTree(t, roots, trees[i]))
    && RootPids(trees) == Image(roots)
  }

  ghost predicate IsForest(t: Table, trees: seq<Tree>) {
    AreTrees(t, RootMap(t), trees)
  }

  function PidKey(pid: int): real { pid as real }

  function RootKey(tree: Tree): real { tree.rootPid as real }

  method RootOf(t: Table, p: Proc) returns (root: int)
    requires Keyed(t) && p.pid in t && t[p.pid] == p
    ensures root == Root(t, p.pid)
  {
    var seen := {p.pid};
    var cur := p;
    while true
      invariant cur.pid in t && t[cur.pid] == cur && seen <= t.Keys
      invariant Climb(t, cur.pid, seen) == Root(t, p.pid)
      decreases t.Keys - seen
    {
      if cur.parentPid !in t || t[cur.parentPid].pid in seen {
        return cur.pid;
      }
      var parent := t[cur.parentPid];
      seen := seen + {parent.pid};
      cur := parent;
    }
  }

  /** Every key is the pid of some process. */
  ghost predicate OnlyThese(keys: set<int>, procs: seq<Proc>) {
    forall q :: q in keys ==> exists i :: 0 <= i < |procs| && procs[i].pid == q
  }

  ghost predicate Covers(roots: map<int, int>, procs: seq<Proc>) {
    forall i :: 0 <= i < |procs| ==> procs[i].pid in roots
  }

  /** The pids among the first `n` processes whose root is `root`, in table order. */
  ghost function Members(roots: map<int, int>, procs: seq<Proc>, n: nat, root: int): seq<int>
    requires n <= |procs| && Covers(roots, procs)
  {
    if n == 0 then []
    else
      Members(roots, procs, n - 1, root) + (if roots[procs[n - 1].pid] == root then [procs[n - 1].pid] else [])
  }

  lemma {:induction false} TableOnlyHolds(procs: seq<Proc>)
    ensures OnlyThese(TableOf(procs).Keys, procs)
  {
    if procs == [] {
    } else {
      var last, rest := procs[|procs| - 1], procs[..|procs| - 1];
      TableOnlyHolds(rest);
      forall q | q in TableOf(procs) ensures exists i :: 0 <= i < |procs| && procs[i].pid == q {
        if q == last.pid {
          assert procs[|procs| - 1].pid == q;
        } else {
          var i :| 0 <= i < |rest| && rest[i].pid == q;
          assert procs[i].pid == q;
        }
      }
    }
  }

  lemma {:induction false} TableHolds(procs: seq<Proc>)
    ensures Keyed(TableOf(procs))
    ensures OnlyThese(TableOf(procs).Keys, procs)
    ensures forall i :: 0 <= i < |procs| ==> procs[i].pid in TableOf(procs)
    ensures UniquePids(procs) ==> forall i :: 0 <= i < |procs| ==> TableOf(procs)[procs[i].pid] == procs[i]
  {
    if procs == [] {
    } else {
      var last, rest := procs[|procs| - 1], procs[..|procs| - 1];
      TableHolds(rest);
      TableOnlyHolds(procs);
      assert forall i :: 0 <= i < |rest| ==> rest[i] == procs[i];
    }
  }

  lemma {:induction false} NotAMember(roots: map<int, int>, procs: seq<Proc>, n: nat, root: int, q: int)
    requires n <= |procs| && Covers(roots, procs)
    requires forall i :: 0 <= i < n ==> procs[i].pid != q
    ensures multiset(Members(roots, procs, n, root))[q] == 0
  {
    if n == 0 {
    } else {
      NotAMember(roots, procs, n - 1, root, q);
    }
  }

  lemma {:induction false} MemberOnce(roots: map<int, int>, procs: seq<Proc>, n: nat, root: int, i: nat)
    requires UniquePids(procs) && i < n <= |procs| && Covers(roots, procs)
    ensures multiset(Members(roots, procs, n, root))[procs[i].pid] == if roots[procs[i].pid] == root then 1 else 0
  {
    if i == n - 1 {
      NotAMember(roots, procs, n - 1, root, procs[i].pid);
    } else {
      assert procs[n - 1].pid != procs[i].pid;
      MemberOnce(roots, procs, n - 1, root, i);
    }
  }

  lemma MembersAreLaunched(roots: map<int, int>, procs: seq<Proc>, root: int)
    requires UniquePids(procs) && Covers(roots, procs) && OnlyThese(roots.Keys, procs)
    ensures multiset(Members(roots, procs, |procs|, root)) == multiset(Launched(roots, root))
  {
    forall q ensures multiset(Members(roots, procs, |procs|, root))[q] == multiset(Launched(roots, root))[q] {
      if i :| 0 <= i < |procs| && procs[i].pid == q {
        MemberOnce(roots, procs, |procs|, root, i);
      } else {
        NotAMember(roots, procs, |procs|, root, q);
      }
    }
  }

  method IndexByPid(procs: seq<Proc>) returns (byPid: Table)
    ensures byPid == TableOf(procs)
  {
    byPid := map[];
    for k := 0 to |procs|
      invariant byPid == TableOf(procs[..k])
    {
      byPid := byPid[procs[k].pid := procs[k]];
      assert procs[..k + 1][..k] == procs[..k];
    }
    assert procs[..|procs|] == procs;
  }

  /** `groups` holds the members of every root met so far, and `order` the roots as first met. */
  ghost predicate Grouped(roots: map<int, int>, procs: seq<Proc>, n: nat, groups: map<int, seq<int>>, order: seq<int>)
    requires n <= |procs| && Covers(roots, procs)
  {
    && (forall i, j :: 0 <= i < j < |order| ==> order[i] != order[j])
    && (forall r :: r in order <==> r in groups)
    && (forall r :: r in groups ==> groups[r] == Members(roots, procs, n, r) && groups[r] != [])
    && (forall i :: 0 <= i < n ==> roots[procs[i].pid] in groups)
  }

  lemma {:induction false} NotYetGrouped(roots: map<int, int>, procs: seq<Proc>, n: nat, root: int)
    requires n <= |procs| && Covers(roots, procs)
    requires forall i :: 0 <= i < n ==> roots[procs[i].pid] != root
    ensures Members(roots, procs, n, root) == []
  {
    if n == 0 {
    } else {
      NotYetGrouped(roots, procs, n - 1, root);
    }
  }

  lemma GroupNext(roots: map<int, int>, procs: seq<Proc>, n: nat, groups: map<int, seq<int>>, order: seq<int>)
    requires n < |procs| && Covers(roots, procs) && Grouped(roots, procs, n, groups, order)
    ensures var pid := procs[n].pid;
            var root := roots[pid];
            if root in groups then Grouped(roots, procs, n + 1, groups[root := groups[root] + [pid]], order)
            else Grouped(roots, procs, n + 1, groups[root := [pid]], order + [root])
  {
    var root := roots[procs[n].pid];
    if root !in groups {
      NotYetGrouped(roots, procs, n, root);
    }
  }

  method GroupByRoot(byPid: Table, procs: seq<Proc>) returns (groups: map<int, seq<int>>, order: seq<int>)
    requires Keyed(byPid) && forall i :: 0 <= i < |procs| ==> procs[i].pid in byPid && byPid[procs[i].pid] == procs[i]
    ensures Grouped(RootMap(byPid), procs, |procs|, groups, order)
    ensures forall i :: 0 <= i < |order| ==> order[i] in byPid && order[i] in groups
  {
    groups, order := map[], [];
    ghost var roots := RootMap(byPid);
    for k := 0 to |procs|
      invariant Grouped(roots, procs, k, groups, order)
      invariant forall r :: r in groups ==> r in byPid
    {
      var p := procs[k];
      var root := RootOf(byPid, p);
      GroupNext(roots, procs, k, groups, order);
      if root !in groups {
        order := order + [root];
        groups := groups[root := [p.pid]];
      } else {
        groups := groups[root := groups[root] + [p.pid]];
      }
    }
    forall i | 0 <= i < |order| ensures order[i] in byPid && order[i] in groups {
      assert order[i] in order;
    }
  }

  function TreeOf(byPid: Table, groups: map<int, seq<int>>, root: int): Tree
    requires root in byPid && root in groups
  {
    Tree(root, SortBy(groups[root], PidKey), byPid[root].commandLine, byPid[root].createdUtc)
  }

  method MapEntries(byPid: Table, groups: map<int, seq<int>>, order: seq<int>) returns (entries: seq<Tree>)
    requires forall i :: 0 <= i < |order| ==> order[i] in byPid && order[i] in groups
    ensures |entries| == |order|
    ensures forall i :: 0 <= i < |order| ==> entries[i] == TreeOf(byPid, groups, order[i])
  {
    entries := [];
    for k := 0 to |order|
      invariant |entries| == k
      invariant forall i :: 0 <= i < k ==> entries[i] == TreeOf(byPid, groups, order[i])
    {
      entries := entries + [TreeOf(byPid, groups, order[k])];
    }
  }

  method CollectorTrees(procs: seq<Proc>) returns (trees: seq<Tree>)
    requires UniquePids(procs)
    ensures IsForest(TableOf(procs), trees)
  {
    var byPid := IndexByPid(procs);
    TableHolds(procs);
    var groups, order := GroupByRoot(byPid, procs);
    var entries := MapEntries(byPid, groups, order);
    EntriesAreForest(procs, groups, order, entries);
    trees := SortBy(entries, RootKey);
  }

  lemma EntriesAreForest(procs: seq<Proc>, groups: map<int, seq<int>>, order: seq<int>, entries: seq<Tree>)
    requires UniquePids(procs) && Covers(RootMap(TableOf(procs)), procs)
    requires Grouped(RootMap(TableOf(procs)), procs, |procs|, groups, order)
    requires forall i :: 0 <= i < |order| ==> order[i] in TableOf(procs) && order[i] in groups
    requires |entries| == |order|
    requires forall i :: 0 <= i < |order| ==> entries[i] == TreeOf(TableOf(procs), groups, order[i])
    ensures IsForest(TableOf(procs), SortBy(entries, RootKey))
  {
    var t, roots := TableOf(procs), RootMap(TableOf(procs));
    TableHolds(procs);
    RootsInTable(t);
    GroupsAreRoots(roots, procs, groups, order);
    EntriesAreTrees(t, roots, procs, groups, order, entries);
    SortedForest(t, roots, entries, order);
  }

  lemma EntriesAreTrees(t: Table, roots: map<int, int>, procs: seq<Proc>,
                        groups: map<int, seq<int>>, order: seq<int>, entries: seq<Tree>)
    requires UniquePids(procs) && Covers(roots, procs) && OnlyThese(roots.Keys, procs)
    requires Grouped(roots, procs, |procs|, groups, order)
    requires forall i :: 0 <= i < |order| ==> order[i] in t && order[i] in groups
    requires |entries| == |order|
    requires forall i :: 0 <= i < |order| ==> entries[i] == TreeOf(t, groups, order[i])
    ensures forall i :: 0 <= i < |entries| ==> entries[i].rootPid == order[i] && IsTree(t, roots, entries[i])
  {
    forall i | 0 <= i < |order| ensures IsTree(t, roots, entries[i]) {
      GroupIsTree(t, roots, procs, order[i]);
    }
  }

  lemma RootsInTable(t: Table)
    ensures RootMap(t).Keys == t.Keys && Image(RootMap(t)) <= t.Keys
  {
  }

  lemma GroupsAreRoots(roots: map<int, int>, procs: seq<Proc>, groups: map<int, seq<int>>, order: seq<int>)
    requires UniquePids(procs) && Covers(roots, procs) && OnlyThese(roots.Keys, procs)
    requires Grouped(roots, procs, |procs|, groups, order)
    ensures forall r :: r in order <==> r in Image(roots)
  {
    forall r | r in order ensures r in Image(roots) {
      MembersAreLaunched(roots, procs, r);
      var pid := groups[r][0];
      assert pid in multiset(Launched(roots, r));
      assert pid in Launched(roots, r);
    }
    forall pid | pid in roots ensures roots[pid] in order {
      var i :| 0 <= i < |procs| && procs[i].pid == pid;
      var r := roots[procs[i].pid];
      assert r in groups && r in order;
    }
    forall r | r in Image(roots) ensures r in order {
      var pid :| pid in roots && roots[pid] == r;
    }
  }

  lemma GroupIsTree(t: Table, roots: map<int, int>, procs: seq<Proc>, root: int)
    requires UniquePids(procs) && Covers(roots, procs) && OnlyThese(roots.Keys, procs) && root in t
    ensures var group := Members(roots, procs, |procs|, root);
            IsTree(t, roots, Tree(root, SortBy(group, PidKey), t[root].commandLine, t[root].createdUtc))
  {
    var group := Members(roots, procs, |procs|, root);
    MembersAreLaunched(roots, procs, root);
    SortAscends(group, PidKey);
    SortKeeps(group, PidKey);
  }

  lemma SortedForest(t: Table, roots: map<int, int>, entries: seq<Tree>, order: seq<int>)
    requires |entries| == |order| && forall r :: r in order <==> r in Image(roots)
    requires forall i, j :: 0 <= i < j < |order| ==> order[i] != order[j]
    requires forall i :: 0 <= i < |entries| ==> entries[i].rootPid == order[i] && IsTree(t, roots, entries[i])
    ensures AreTrees(t, roots, SortBy(entries, RootKey))
  {
    var trees := SortBy(entries, RootKey);
    SortKeeps(entries, RootKey);
    SameElements(entries, trees);
    SortedRoots(entries);
    RootsKept(entries, trees, order, Image(roots));
    forall i | 0 <= i < |trees| ensures IsTree(t, roots, trees[i]) {
      assert trees[i] in entries;
    }
  }

  lemma SortedRoots(entries: seq<Tree>)
    requires forall i, j :: 0 <= i < j < |entries| ==> entries[i].rootPid != entries[j].rootPid
    ensures var trees := SortBy(entries, RootKey);
            forall i, j :: 0 <= i < j < |trees| ==> trees[i].rootPid < trees[j].rootPid
  {
    var trees := SortBy(entries, RootKey);
    SortAscendsStrictly(entries, RootKey);
    forall i, j | 0 <= i < j < |trees| ensures trees[i].rootPid < trees[j].rootPid {
      assert RootKey(trees[i]) < RootKey(trees[j]);
    }
  }

  lemma RootsKept(entries: seq<Tree>, trees: seq<Tree>, order: seq<int>, roots: set<int>)
    requires |entries| == |order| && forall i :: 0 <= i < |entries| ==> entries[i].rootPid == order[i]
    requires forall r :: r in order <==> r in roots
    requires forall e :: e in entries <==> e in trees
    ensures RootPids(trees) == roots
  {
    forall i | 0 <= i < |trees| ensures trees[i].rootPid in roots {
      assert trees[i] in entries;
      var j :| 0 <= j < |entries| && entries[j] == trees[i];
      assert order[j] in order;
    }
    forall r | r in roots ensures r in RootPids(trees) {
      var i :| 0 <= i < |order| && order[i] == r;
      assert entries[i] in trees;
    }
  }

  // ---- what the forest means ----

  /** Every pid is listed exactly once by exactly one tree, cyclic tables included. */
  lemma EveryPidOnce(t: Table, trees: seq<Tree>, pid: int)
    requires IsForest(t, trees) && pid in t
    ensures exists i :: 0 <= i < |trees| && multiset(trees[i].pids)[pid] == 1
    ensures forall i, j :: 0 <= i < j < |trees| ==> pid !in trees[i].pids || pid !in trees[j].pids
  {
    var roots := RootMap(t);
    assert roots[pid] in RootPids(trees);
    var i :| 0 <= i < |trees| && trees[i].rootPid == roots[pid];
    assert IsTree(t, roots, trees[i]);
    assert pid in Launched(roots, trees[i].rootPid);
    forall j | 0 <= j < |trees| && pid in trees[j].pids ensures trees[j].rootPid == roots[pid] {
      assert IsTree(t, roots, trees[j]) && pid in multiset(trees[j].pids);
      assert pid in Launched(roots, trees[j].rootPid);
    }
  }

  ghost function Parentless(t: Table): set<int> {
    set pid | pid in t && Parent(t, pid).None?
  }

  lemma {:induction false} CountRoots(trees: seq<Tree>)
    requires forall i, j :: 0 <= i < j < |trees| ==> trees[i].rootPid < trees[j].rootPid
    ensures |RootPids(trees)| == |trees|
  {
    if trees == [] {
    } else {
      var rest := trees[..|trees| - 1];
      CountRoots(rest);
      assert RootPids(trees) == RootPids(rest) + {trees[|trees| - 1].rootPid};
    }
  }

  /** A parentless process is a root, and all roots are parentless exactly when every chain ends. */
  lemma RootsAndParentless(t: Table)
    ensures Parentless(t) <= Image(RootMap(t))
    ensures Image(RootMap(t)) <= Parentless(t) <==> forall pid :: pid in t ==> ChainEnds(t, pid)
  {
    var roots := RootMap(t);
    forall pid | pid in Parentless(t) ensures pid in Image(roots) {
      OwnRoot(t, pid);
      assert roots[pid] == pid;
    }
    forall pid | pid in t ensures roots[pid] in Parentless(t) <==> ChainEnds(t, pid) {
      RootIsParentless(t, pid);
    }
    if Image(roots) <= Parentless(t) {
      forall pid | pid in t ensures ChainEnds(t, pid) {
        assert roots[pid] in Image(roots);
      }
    }
  }

  /**
   * The tree count is the number of processes without a matching parent exactly when
   * no chain of parents runs into a cycle; otherwise it is larger.
   */
  lemma TreeCount(t: Table, trees: seq<Tree>)
    requires IsForest(t, trees)
    ensures |trees| >= |Parentless(t)|
    ensures |trees| == |Parentless(t)| <==> forall pid :: pid in t ==> ChainEnds(t, pid)
  {
    CountRoots(trees);
    RootsAndParentless(t);
    var roots := Image(RootMap(t));
    assert roots == Parentless(t) + (roots - Parentless(t));
  }

  // ---- cycles ----

  /** The chain of parents comes back to the process itself. */
  ghost predicate OnCycle(t: Table, pid: int)
    requires pid in t
  {
    exists k: nat :: k >= 1 && Ancestor(t, pid, k) == Some(pid)
  }

  ghost function Cyclic(t: Table): set<int> {
    set pid | pid in t && OnCycle(t, pid)
  }

  /** An ancestor's ancestors are the process's own, further up. */
  lemma {:induction false} AncestorOfAncestor(t: Table, pid: int, k: nat, q: int, m: nat)
    requires pid in t && q in t && Ancestor(t, pid, k) == Some(q)
    ensures Ancestor(t, pid, k + m) == Ancestor(t, q, m)
    decreases m
  {
    if m == 0 {
    } else {
      AncestorOfAncestor(t, pid, k, q, m - 1);
    }
  }

  /** A root that has a parent is on a cycle: its parent was met before on the way up to it. */
  lemma RootIsParentlessOrCyclic(t: Table, pid: int)
    requires pid in t
    ensures Parent(t, Root(t, pid)).None? || OnCycle(t, Root(t, pid))
  {
    var root := Root(t, pid);
    assert Ancestor(t, pid, 0) == Some(pid);
    var n, back := ClimbStops(t, pid, 0, pid, {pid});
    if Parent(t, root).Some? {
      var parent := Parent(t, root).value;
      AncestorOfAncestor(t, pid, back, parent, n - back);
      assert Ancestor(t, root, 1) == Some(parent) by {
        assert Ancestor(t, root, 0) == Some(root);
      }
      AncestorOfAncestor(t, root, 1, parent, n - back);
      assert Ancestor(t, root, 1 + (n - back)) == Some(root);
    }
  }

  /** Round a cycle whose members are all unvisited the walk goes on to the one whose parent it started from. */
  lemma {:induction false} ClimbsRound(t: Table, start: int, cur: int, last: int, m: nat, seen: set<int>)
    requires start in t && cur in t && last in t && seen <= t.Keys && start in seen
    requires Ancestor(t, cur, m) == Some(last) && Parent(t, last) == Some(start)
    requires forall i: nat :: 1 <= i <= m ==> Ancestor(t, cur, i).Some? && Ancestor(t, cur, i).value !in seen
    requires forall i: nat, j: nat :: i < j <= m ==> Ancestor(t, cur, i) != Ancestor(t, cur, j)
    ensures Climb(t, cur, seen) == last
    decreases m
  {
    if m == 0 {
    } else {
      assert Ancestor(t, cur, 0) == Some(cur);
      var next := Ancestor(t, cur, 1).value;
      forall i: nat | i <= m - 1 ensures Ancestor(t, next, i) == Ancestor(t, cur, 1 + i) {
        AncestorOfAncestor(t, cur, 1, next, i);
      }
      assert Ancestor(t, next, 0) == Some(next);
      forall i: nat | 1 <= i <= m - 1
        ensures Ancestor(t, next, i).Some? && Ancestor(t, next, i).value !in seen + {next}
      {
        assert Ancestor(t, cur, 1 + i) != Ancestor(t, cur, 1);
      }
      forall i: nat, j: nat | i < j <= m - 1 ensures Ancestor(t, next, i) != Ancestor(t, next, j) {
        assert Ancestor(t, cur, 1 + i) != Ancestor(t, cur, 1 + j);
      }
      ClimbsRound(t, start, next, last, m - 1, seen + {next});
    }
  }

  lemma {:induction false} LeastPeriod(t: Table, pid: int, k: nat) returns (least: nat)
    requires pid in t && k >= 1 && Ancestor(t, pid, k) == Some(pid)
    ensures least >= 1 && Ancestor(t, pid, least) == Some(pid)
    ensures forall j: nat :: 1 <= j < least ==> Ancestor(t, pid, j) != Some(pid)
  {
    if j: nat :| 1 <= j < k && Ancestor(t, pid, j) == Some(pid) {
      least := LeastPeriod(t, pid, j);
    } else {
      least := k;
    }
  }

  /** Within one period the ancestors of a process on a cycle are all there and pairwise different. */
  lemma OnePeriodDiffers(t: Table, pid: int, period: nat, a: nat, b: nat)
    requires pid in t && Ancestor(t, pid, period) == Some(pid) && 1 <= a < b <= period
    requires forall j: nat :: 1 <= j < period ==> Ancestor(t, pid, j) != Some(pid)
    ensures Ancestor(t, pid, a) != Ancestor(t, pid, b)
  {
    if Ancestor(t, pid, a) == Ancestor(t, pid, b) {
      AncestorsRepeat(t, pid, a, b, period - b);
    }
  }

  /** A process on a cycle is the root of its own parent. */
  lemma CyclicIsRoot(t: Table, pid: int)
    requires pid in t && OnCycle(t, pid)
    ensures Parent(t, pid).Some? && Root(t, Parent(t, pid).value) == pid
  {
    var k: nat :| k >= 1 && Ancestor(t, pid, k) == Some(pid);
    var period := LeastPeriod(t, pid, k);
    AncestorsBelow(t, pid, period, 1);
    assert Ancestor(t, pid, 0) == Some(pid);
    var next := Parent(t, pid).value;
    assert Ancestor(t, pid, 1) == Some(next);
    forall i: nat | i <= period - 1
      ensures Ancestor(t, next, i) == Ancestor(t, pid, 1 + i) && Ancestor(t, next, i).Some?
    {
      AncestorOfAncestor(t, pid, 1, next, i);
      AncestorsBelow(t, pid, period, 1 + i);
    }
    forall i: nat, j: nat | i < j <= period - 1 ensures Ancestor(t, next, i) != Ancestor(t, next, j) {
      OnePeriodDiffers(t, pid, period, 1 + i, 1 + j);
    }
    assert Ancestor(t, next, 0) == Some(next);
    ClimbsRound(t, next, next, pid, period - 1, {next});
  }

  lemma ParentlessIsNotCyclic(t: Table, pid: int)
    requires pid in t && Parent(t, pid).None?
    ensures !OnCycle(t, pid)
  {
    assert Ancestor(t, pid, 0) == Some(pid);
    forall k: nat | k >= 1 ensures Ancestor(t, pid, k) != Some(pid) {
      if Ancestor(t, pid, k).Some? {
        AncestorsBelow(t, pid, k, 1);
      }
    }
  }

  /** The roots of any table, cyclic or not, are the processes without a matching parent and those on cycles. */
  lemma RootsAre(t: Table)
    ensures Image(RootMap(t)) == Parentless(t) + Cyclic(t)
    ensures Parentless(t) !! Cyclic(t)
  {
    var roots := RootMap(t);
    forall pid | pid in t ensures roots[pid] in Parentless(t) + Cyclic(t) {
      RootIsParentlessOrCyclic(t, pid);
    }
    forall pid | pid in Parentless(t) ensures pid in Image(roots) && pid !in Cyclic(t) {
      OwnRoot(t, pid);
      assert roots[pid] == pid;
      ParentlessIsNotCyclic(t, pid);
    }
    forall pid | pid in Cyclic(t) ensures pid in Image(roots) {
      CyclicIsRoot(t, pid);
      assert roots[Parent(t, pid).value] == pid;
    }
  }

  /** One tree for each process without a matching parent and one for each process on a cycle. */
  lemma TreesCounted(t: Table, trees: seq<Tree>)
    requires IsForest(t, trees)
    ensures |trees| == |Parentless(t)| + |Cyclic(t)|
  {
    CountRoots(trees);
    RootsAre(t);
  }

  /** A tree lists its own root exactly when that process has no matching parent or names itself. */
  lemma TreeHoldsItsRootExactlyWhen(t: Table, trees: seq<Tree>, i: nat)
    requires IsForest(t, trees) && i < |trees|
    ensures var root := trees[i].rootPid;
            root in t && (root in trees[i].pids <==> Parent(t, root) == None || Parent(t, root) == Some(root))
  {
    var root := trees[i].rootPid;
    assert IsTree(t, RootMap(t), trees[i]);
    HoldsItsRoot(t, RootMap(t), trees[i]);
    OwnRoot(t, root);
  }

  /** In a two-process parent cycle each process is the other's root. */
  lemma CycleRoots(t: Table, a: int, b: int)
    requires a != b && t.Keys == {a, b} && t[a].parentPid == b && t[b].parentPid == a
    ensures RootMap(t) == map[a := b, b := a]
  {
    assert Climb(t, b, {a} + {b}) == b && Climb(t, a, {b} + {a}) == a;
  }

  lemma SwappedRoots(t: Table, a: int, b: int, trees: seq<Tree>)
    requires a != b && AreTrees(t, map[a := b, b := a], trees)
    ensures |trees| == 2 && forall i :: 0 <= i < |trees| ==> trees[i].rootPid !in trees[i].pids
  {
    var roots := map[a := b, b := a];
    CountRoots(trees);
    assert Image(roots) == {a, b} by {
      assert roots[a] == b && roots[b] == a;
    }
    forall i | 0 <= i < |trees| ensures trees[i].rootPid !in trees[i].pids {
      assert trees[i].rootPid in RootPids(trees);
      HoldsItsRoot(t, roots, trees[i]);
    }
  }

  /** Two processes that name each other as parent are reported as two trees, neither holding its own root. */
  lemma CycleCountsTwice(a: Proc, b: Proc, trees: seq<Tree>)
    requires a.pid != b.pid && a.parentPid == b.pid && b.parentPid == a.pid
    requires IsForest(TableOf([a, b]), trees)
    ensures |trees| == 2 && forall i :: 0 <= i < |trees| ==> trees[i].rootPid !in trees[i].pids
  {
    var procs := [a, b];
    TableHolds(procs);
    assert procs[0].pid in TableOf(procs) && procs[1].pid in TableOf(procs);
    forall q | q in TableOf(procs).Keys ensures q in {a.pid, b.pid} {
      var i :| 0 <= i < |procs| && procs[i].pid == q;
    }
    assert TableOf(procs).Keys == {a.pid, b.pid};
    CycleRoots(TableOf(procs), a.pid, b.pid);
    SwappedRoots(TableOf(procs), a.pid, b.pid, trees);
  }

  lemma HoldsItsRoot(t: Table, roots: map<int, int>, tree: Tree)
    requires IsTree(t, roots, tree)
    ensures tree.rootPid in tree.pids <==> tree.rootPid in roots && roots[tree.rootPid] == tree.rootPid
  {
    assert tree.rootPid in tree.pids <==> tree.rootPid in multiset(tree.pids);
    assert tree.rootPid in multiset(Launched(roots, tree.rootPid)) <==> tree.rootPid in Launched(roots, tree.rootPid);
  }
}

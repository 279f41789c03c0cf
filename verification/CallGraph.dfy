/**
 * The breadth-first search behind the production call graph, and the verdicts
 * that are read off it (scripts/call-graph.ts).
 */
module CallGraph {
  import opened Prelude

  type Name = string

  /** Caller to callees; a JavaScript Set iterates in insertion order. */
  type Edges = map<Name, seq<Name>>

  function Callees(edges: Edges, n: Name): seq<Name> {
    if n in edges then edges[n] else []
  }

  ghost predicate IsPath(edges: Edges, p: seq<Name>) {
    p != [] && forall i :: 0 <= i < |p| - 1 ==> p[i + 1] in Callees(edges, p[i])
  }

  ghost predicate IsPathBetween(edges: Edges, from: Name, to: Name, p: seq<Name>) {
    IsPath(edges, p) && p[0] == from && p[|p| - 1] == to
  }

  ghost predicate Reachable(edges: Edges, from: Name, to: Name) {
    exists p :: IsPathBetween(edges, from, to, p)
  }

  ghost predicate IsShortestPath(edges: Edges, from: Name, to: Name, p: seq<Name>) {
    && IsPathBetween(edges, from, to, p)
    && forall q :: IsPathBetween(edges, from, to, q) ==> |p| <= |q|
  }

  /** What a finished search is: a shortest path for every reachable name and nothing else. */
  ghost predicate IsReach(edges: Edges, start: Name, seen: map<Name, seq<Name>>) {
    && (forall n :: n in seen <==> Reachable(edges, start, n))
    && (forall n :: n in seen ==> IsShortestPath(edges, start, n, seen[n]))
  }

  /** Every name mentioned anywhere, which bounds the search. */
  ghost function Universe(edges: Edges, start: Name): set<Name> {
    {start} + (set n, m | n in edges && m in edges[n] :: m)
  }

  // ---- what makes the queue order yield shortest paths ----

  type Paths = map<Name, seq<Name>>

  ghost predicate PathsFrom(edges: Edges, start: Name, seen: Paths) {
    && start in seen
    && forall n :: n in seen ==> IsPathBetween(edges, start, n, seen[n])
  }

  /** A name is stored, at a path of at most `bound` names. */
  ghost predicate Within(seen: Paths, n: Name, bound: nat) {
    n in seen && |seen[n]| <= bound
  }

  /** Waiting names are stored and pairwise distinct. */
  ghost predicate QueueStored(seen: Paths, queue: seq<Name>) {
    && (forall n :: n in queue ==> n in seen)
    && (forall i, j :: 0 <= i < j < |queue| ==> queue[i] != queue[j])
  }

  /** Path lengths never fall from front to back, and nothing stored is two longer than the front. */
  ghost predicate Levelled(seen: Paths, queue: seq<Name>)
    requires QueueStored(seen, queue)
  {
    && (forall i, j :: 0 <= i < j < |queue| ==> |seen[queue[i]]| <= |seen[queue[j]]|)
    && (queue != [] ==> forall n :: n in seen ==> Within(seen, n, |seen[queue[0]]| + 1))
  }

  /** The first `k` callees of `n` are all stored, at a path at most one longer. */
  ghost predicate Relaxed(edges: Edges, seen: Paths, n: Name, k: nat)
    requires n in seen && k <= |Callees(edges, n)|
  {
    forall i :: 0 <= i < k ==> Within(seen, Callees(edges, n)[i], |seen[n]| + 1)
  }

  ghost predicate AllRelaxed(edges: Edges, seen: Paths, done: set<Name>)
    requires done <= seen.Keys
  {
    forall d :: d in done ==> Relaxed(edges, seen, d, |Callees(edges, d)|)
  }

  /** Once nothing waits, a stored path is no longer than any path to the same name. */
  lemma {:induction false} RelaxedIsShortest(edges: Edges, start: Name, seen: Paths, p: seq<Name>)
    requires start in seen && |seen[start]| == 1
    requires AllRelaxed(edges, seen, seen.Keys)
    requires IsPath(edges, p) && p[0] == start
    ensures Within(seen, p[|p| - 1], |p|)
    decreases |p|
  {
    if |p| == 1 {
    } else {
      var q := p[..|p| - 1];
      RelaxedIsShortest(edges, start, seen, q);
      var n := p[|p| - 2];
      assert p[(|p| - 2) + 1] in Callees(edges, n);
      var k :| 0 <= k < |Callees(edges, n)| && Callees(edges, n)[k] == p[|p| - 1];
      assert Relaxed(edges, seen, n, |Callees(edges, n)|);
    }
  }

  lemma ExhaustedIsReach(edges: Edges, start: Name, seen: Paths)
    requires PathsFrom(edges, start, seen) && |seen[start]| == 1
    requires AllRelaxed(edges, seen, seen.Keys)
    ensures IsReach(edges, start, seen)
  {
    forall n, p | IsPathBetween(edges, start, n, p)
      ensures Within(seen, n, |p|)
    {
      RelaxedIsShortest(edges, start, seen, p);
    }
  }

  lemma PathStep(edges: Edges, from: Name, p: seq<Name>, next: Name)
    requires IsPath(edges, p) && p[0] == from && next in Callees(edges, p[|p| - 1])
    ensures IsPathBetween(edges, from, next, p + [next])
  {
  }

  ghost function Elements(queue: seq<Name>): set<Name> {
    set n | n in queue
  }

  /** The search keeps: every name stored and no longer waiting has all its callees stored in time. */
  ghost predicate Searching(edges: Edges, start: Name, seen: Paths, waiting: seq<Name>, done: set<Name>) {
    && PathsFrom(edges, start, seen) && |seen[start]| == 1
    && seen.Keys <= Universe(edges, start)
    && QueueStored(seen, waiting) && Levelled(seen, waiting)
    && done == seen.Keys - Elements(waiting)
    && AllRelaxed(edges, seen, done)
  }

  /** While `cur` is at the front, with its first `k` callees looked at. */
  ghost predicate Expanding(edges: Edges, start: Name, seen: Paths, cur: Name, queue: seq<Name>, done: set<Name>,
                            k: nat) {
    && Searching(edges, start, seen, [cur] + queue, done)
    && cur in seen && k <= |Callees(edges, cur)| && Relaxed(edges, seen, cur, k)
  }

  method Reach(edges: Edges, start: Name) returns (seen: Paths)
    ensures IsReach(edges, start, seen)
  {
    seen := map[start := [start]];
    var queue := [start];
    ghost var done: set<Name> := {};
    Begin(edges, start);
    while queue != []
      invariant Searching(edges, start, seen, queue, done)
      decreases Universe(edges, start) - done
    {
      var cur := queue[0];
      TakeFront(edges, start, seen, queue, done);
      queue := queue[1..];
      var path := seen[cur];
      var next := Callees(edges, cur);
      var k := 0;
      while k < |next|
        invariant Expanding(edges, start, seen, cur, queue, done, k) && seen[cur] == path
      {
        Expand(edges, start, seen, cur, queue, done, k);
        if next[k] !in seen {
          seen := seen[next[k] := path + [next[k]]];
          queue := queue + [next[k]];
        }
        k := k + 1;
      }
      Finish(edges, start, seen, cur, queue, done);
      done := done + {cur};
    }
    assert done == seen.Keys;
    ExhaustedIsReach(edges, start, seen);
  }

  lemma Begin(edges: Edges, start: Name)
    ensures Searching(edges, start, map[start := [start]], [start], {})
  {
  }

  lemma TakeFront(edges: Edges, start: Name, seen: Paths, queue: seq<Name>, done: set<Name>)
    requires Searching(edges, start, seen, queue, done) && queue != []
    ensures Expanding(edges, start, seen, queue[0], queue[1..], done, 0)
  {
    assert [queue[0]] + queue[1..] == queue;
  }

  /** A callee already seen was stored at a path short enough; another is stored one call further and waits last. */
  lemma Expand(edges: Edges, start: Name, seen: Paths, cur: Name, queue: seq<Name>, done: set<Name>, k: nat)
    requires Expanding(edges, start, seen, cur, queue, done, k) && k < |Callees(edges, cur)|
    ensures var n := Callees(edges, cur)[k];
            if n in seen then Expanding(edges, start, seen, cur, queue, done, k + 1)
            else
              && n != cur
              && Expanding(edges, start, seen[n := seen[cur] + [n]], cur, queue + [n], done, k + 1)
  {
    var n, waiting := Callees(edges, cur)[k], [cur] + queue;
    assert waiting[0] == cur;
    if n in seen {
      assert Within(seen, n, |seen[cur]| + 1);
    } else {
      Discover(edges, start, seen, waiting, done, k);
      assert waiting + [n] == [cur] + (queue + [n]);
    }
  }

  lemma Discover(edges: Edges, start: Name, seen: Paths, waiting: seq<Name>, done: set<Name>, k: nat)
    requires Searching(edges, start, seen, waiting, done) && waiting != []
    requires k < |Callees(edges, waiting[0])| && Callees(edges, waiting[0])[k] !in seen
    requires Relaxed(edges, seen, waiting[0], k)
    ensures var n := Callees(edges, waiting[0])[k];
            var seen' := seen[n := seen[waiting[0]] + [n]];
            Searching(edges, start, seen', waiting + [n], done) && Relaxed(edges, seen', waiting[0], k + 1)
  {
    var cur := waiting[0];
    var n := Callees(edges, cur)[k];
    DiscoverPath(edges, start, seen, cur, k);
    DiscoverQueue(seen, waiting, n, seen[cur] + [n]);
    DiscoverRelaxed(edges, seen, done, cur, k, seen[cur] + [n]);
  }

  /** With all its callees stored the front of the queue is done. */
  lemma Finish(edges: Edges, start: Name, seen: Paths, cur: Name, queue: seq<Name>, done: set<Name>)
    requires Expanding(edges, start, seen, cur, queue, done, |Callees(edges, cur)|)
    ensures Searching(edges, start, seen, queue, done + {cur})
    ensures cur !in done && cur in Universe(edges, start)
  {
    var waiting := [cur] + queue;
    assert waiting[0] == cur && waiting[1..] == queue;
    Dequeue(seen, waiting);
  }

  lemma DiscoverPath(edges: Edges, start: Name, seen: Paths, cur: Name, k: nat)
    requires PathsFrom(edges, start, seen) && cur in seen
    requires k < |Callees(edges, cur)|
    ensures var n := Callees(edges, cur)[k];
            n in Universe(edges, start) && (n !in seen ==> PathsFrom(edges, start, seen[n := seen[cur] + [n]]))
  {
    PathStep(edges, start, seen[cur], Callees(edges, cur)[k]);
  }

  lemma DiscoverQueue(seen: Paths, waiting: seq<Name>, n: Name, path: seq<Name>)
    requires QueueStored(seen, waiting) && Levelled(seen, waiting)
    requires waiting != [] && n !in seen && |path| == |seen[waiting[0]]| + 1
    ensures var seen' := seen[n := path];
            && QueueStored(seen', waiting + [n]) && Levelled(seen', waiting + [n])
            && seen'.Keys - Elements(waiting + [n]) == seen.Keys - Elements(waiting)
  {
    var seen', waiting' := seen[n := path], waiting + [n];
    forall i | 0 <= i < |waiting|
      ensures waiting'[i] == waiting[i] && waiting[i] != n && |seen[waiting[i]]| <= |path|
    {
      assert waiting[i] in waiting;
      assert Within(seen, waiting[i], |seen[waiting[0]]| + 1);
    }
    forall m | m in seen' ensures Within(seen', m, |seen'[waiting'[0]]| + 1) {
      assert m != n ==> Within(seen, m, |seen[waiting[0]]| + 1);
    }
  }

  lemma DiscoverRelaxed(edges: Edges, seen: Paths, done: set<Name>, cur: Name, k: nat, path: seq<Name>)
    requires cur in seen && k < |Callees(edges, cur)| && Callees(edges, cur)[k] !in seen
    requires done <= seen.Keys && AllRelaxed(edges, seen, done) && Relaxed(edges, seen, cur, k)
    ensures var seen' := seen[Callees(edges, cur)[k] := path];
            AllRelaxed(edges, seen', done) && Relaxed(edges, seen', cur, k)
  {
    var seen' := seen[Callees(edges, cur)[k] := path];
    assert forall m, b: nat :: Within(seen, m, b) ==> Within(seen', m, b);
    forall d | d in done ensures Relaxed(edges, seen', d, |Callees(edges, d)|) {
      assert Relaxed(edges, seen, d, |Callees(edges, d)|);
    }
  }

  lemma Dequeue(seen: Paths, waiting: seq<Name>)
    requires waiting != [] && QueueStored(seen, waiting) && Levelled(seen, waiting)
    ensures QueueStored(seen, waiting[1..]) && Levelled(seen, waiting[1..])
    ensures waiting[0] !in waiting[1..]
    ensures seen.Keys - Elements(waiting[1..]) == seen.Keys - Elements(waiting) + {waiting[0]}
  {
    var rest := waiting[1..];
    assert waiting == [waiting[0]] + rest;
    if rest != [] {
      forall n | n in seen ensures Within(seen, n, |seen[rest[0]]| + 1) {
        assert Within(seen, n, |seen[waiting[0]]| + 1);
        assert rest[0] == waiting[1];
      }
    }
  }

  // ---- the verdicts read off the search ----

  datatype Requirement = Requirement(from: Name, to: Name)

  datatype Verdict = Verdict(req: Requirement, path: Option<seq<Name>>)

  ghost predicate Sound(edges: Edges, v: Verdict) {
    && (v.path.Some? <==> Reachable(edges, v.req.from, v.req.to))
    && (v.path.Some? ==> IsShortestPath(edges, v.req.from, v.req.to, v.path.value))
  }

  method CheckRequired(edges: Edges, required: seq<Requirement>)
    returns (results: seq<Verdict>, missing: seq<Verdict>)
    ensures |results| == |required|
    ensures forall i :: 0 <= i < |required| ==> results[i].req == required[i] && Sound(edges, results[i])
    ensures forall v :: v in missing <==> v in results && !Reachable(edges, v.req.from, v.req.to)
    ensures missing == [] <==> forall r :: r in required ==> Reachable(edges, r.from, r.to)
  {
    results, missing := [], [];
    for k := 0 to |required|
      invariant |results| == k
      invariant forall i :: 0 <= i < k ==> results[i].req == required[i] && Sound(edges, results[i])
      invariant forall v :: v in missing <==> v in results && v.path.None?
    {
      var r := required[k];
      var reachable := Reach(edges, r.from);
      var v := Verdict(r, if r.to in reachable then Some(reachable[r.to]) else None);
      results := results + [v];
      if v.path.None? {
        missing := missing + [v];
      }
    }
    assert forall v :: v in results ==> Sound(edges, v);
    if missing != [] {
      assert missing[0] in results;
      assert missing[0].req in required;
    }
    forall r | r in required && !Reachable(edges, r.from, r.to) ensures missing != [] {
      var i :| 0 <= i < |required| && required[i] == r;
      assert results[i] in missing;
    }
  }

  /** The functions a root can reach that are declared under a forbidden directory. */
  method ForbiddenReachable(edges: Edges, declaredIn: map<Name, string>, root: Name, directory: string)
    returns (found: set<Name>)
    ensures forall n :: n in found <==>
      Reachable(edges, root, n) && n in declaredIn && directory <= declaredIn[n]
  {
    var seen := Reach(edges, root);
    found := set n | n in seen && n in declaredIn && directory <= declaredIn[n];
  }

  /** No forbidden name is reachable exactly when no chain of calls out of the root ever visits one. */
  lemma NoForbiddenChain(edges: Edges, root: Name, forbidden: set<Name>)
    ensures (forall n :: n in forbidden ==> !Reachable(edges, root, n))
      <==> (forall p, i :: IsPath(edges, p) && p[0] == root && 0 <= i < |p| ==> p[i] !in forbidden)
  {
    if forall n :: n in forbidden ==> !Reachable(edges, root, n) {
      forall p, i | IsPath(edges, p) && p[0] == root && 0 <= i < |p|
        ensures p[i] !in forbidden
      {
        assert IsPathBetween(edges, root, p[i], p[..i + 1]);
      }
    } else {
      var n :| n in forbidden && Reachable(edges, root, n);
      var p :| IsPathBetween(edges, root, n, p);
      assert p[|p| - 1] in forbidden;
    }
  }
}

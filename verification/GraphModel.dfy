/**
 Dependency graphs as values. `g[n]` lists the nodes `n` depends on, in
 insertion order. Nodes are naturals: the graph algorithms only compare keys,
 and every finite totally ordered key set embeds in the naturals.
 */
module GraphModel {
  import opened KeyOrder

  type Edges = map<Key, seq<Key>>

  ghost predicate NoDuplicates<T>(s: seq<T>) {
    forall i, j :: 0 <= i < j < |s| ==> s[i] != s[j]
  }

  /** Every dependency is itself a node, and no node lists one twice. */
  ghost predicate WellFormed(g: Edges) {
    && (forall n, i :: n in g && 0 <= i < |g[n]| ==> g[n][i] in g)
    && (forall n :: n in g ==> NoDuplicates(g[n]))
  }

  function Dependencies(g: Edges, n: Key): seq<Key> {
    if n in g then g[n] else []
  }

  predicate HasEdge(g: Edges, a: Key, b: Key) {
    b in Dependencies(g, a)
  }

  // ----- paths, reachability, cycles -----

  ghost predicate IsPath(g: Edges, p: seq<Key>) {
    && |p| >= 1
    && forall i :: 0 <= i < |p| - 1 ==> HasEdge(g, p[i], p[i + 1])
  }

  ghost predicate PathFromTo(g: Edges, p: seq<Key>, a: Key, b: Key) {
    IsPath(g, p) && p[0] == a && p[|p| - 1] == b
  }

  /** Reflexive, transitive dependency. */
  ghost predicate Reaches(g: Edges, a: Key, b: Key) {
    exists p :: PathFromTo(g, p, a, b)
  }

  /** `n` depends on itself through at least one edge. */
  ghost predicate OnCycle(g: Edges, n: Key) {
    exists p :: PathFromTo(g, p, n, n) && |p| >= 2
  }

  ghost predicate Acyclic(g: Edges) {
    forall n :: !OnCycle(g, n)
  }

  /** `n` is on a cycle or behind one. */
  ghost predicate CycleReachable(g: Edges, n: Key) {
    exists c :: Reaches(g, n, c) && OnCycle(g, c)
  }

  lemma JoinPaths(g: Edges, p: seq<Key>, q: seq<Key>, a: Key, b: Key, c: Key)
    requires PathFromTo(g, p, a, b) && PathFromTo(g, q, b, c)
    ensures PathFromTo(g, p + q[1..], a, c)
    ensures |p + q[1..]| == |p| + |q| - 1
  {
    var r := p + q[1..];
    forall i | 0 <= i < |r| - 1 ensures HasEdge(g, r[i], r[i + 1]) {
      if i >= |p| - 1 {
        assert r[i] == q[i - (|p| - 1)] && r[i + 1] == q[i + 1 - (|p| - 1)];
        assert HasEdge(g, q[i - (|p| - 1)], q[i - (|p| - 1) + 1]);
      }
    }
  }

  lemma ReachesSelf(g: Edges, a: Key)
    ensures Reaches(g, a, a)
  {
    assert PathFromTo(g, [a], a, a);
  }

  /** An edge whose target leads back to its source closes a cycle. */
  lemma EdgeClosesCycle(g: Edges, a: Key, b: Key)
    requires HasEdge(g, a, b) && Reaches(g, b, a)
    ensures OnCycle(g, a) && OnCycle(g, b)
  {
    var p :| PathFromTo(g, p, b, a);
    assert PathFromTo(g, [a, b], a, b);
    JoinPaths(g, [a, b], p, a, b, a);
    JoinPaths(g, p, [a, b], b, a, b);
  }

  /** Every node of a cycle through a node is on that cycle too. */
  lemma CycleMembersOnCycle(g: Edges, p: seq<Key>, k: nat)
    requires IsPath(g, p) && |p| >= 2 && p[0] == p[|p| - 1] && k < |p|
    ensures OnCycle(g, p[k])
  {
    var head, tail := p[..k + 1], p[k..];
    assert PathFromTo(g, head, p[0], p[k]);
    forall i | 0 <= i < |tail| - 1 ensures HasEdge(g, tail[i], tail[i + 1]) {
      assert HasEdge(g, p[k + i], p[k + i + 1]);
    }
    assert PathFromTo(g, tail, p[k], p[0]);
    JoinPaths(g, tail, head, p[k], p[0], p[k]);
  }

  // ----- two ways to settle whether a cycle is reachable -----

  /** Each listed node has all its dependencies listed before it. */
  ghost predicate DependenciesFirst(g: Edges, order: seq<Key>) {
    forall i, d :: 0 <= i < |order| && HasEdge(g, order[i], d) ==> d in order[..i]
  }

  lemma {:induction false} PathDescends(g: Edges, order: seq<Key>, p: seq<Key>, i: nat, k: nat)
    requires DependenciesFirst(g, order) && IsPath(g, p)
    requires i < |order| && p[0] == order[i] && k < |p|
    ensures k <= i && p[k] in order[..i + 1 - k]
  {
    if k > 0 {
      PathDescends(g, order, p, i, k - 1);
      var j :| 0 <= j < i + 2 - k && order[j] == p[k - 1];
      assert HasEdge(g, p[k - 1], p[k - 1 + 1]);
      assert p[k] in order[..j];
    }
  }

  /** No cycle is reachable from a node that follows its dependencies. */
  lemma OrderedReachesNoCycle(g: Edges, order: seq<Key>, n: Key)
    requires DependenciesFirst(g, order) && NoDuplicates(order) && n in order
    ensures !CycleReachable(g, n)
  {
    if CycleReachable(g, n) {
      var c :| Reaches(g, n, c) && OnCycle(g, c);
      var p :| PathFromTo(g, p, n, c);
      var q :| PathFromTo(g, q, c, c) && |q| >= 2;
      var i :| 0 <= i < |order| && order[i] == n;
      PathDescends(g, order, p, i, |p| - 1);
      var j :| 0 <= j < i + 2 - |p| && order[j] == c;
      PathDescends(g, order, q, j, |q| - 1);
      assert false;
    }
  }

  lemma {:induction false} DistinctWithinSet(p: seq<Key>, s: set<Key>)
    requires NoDuplicates(p) && forall k :: k in p ==> k in s
    ensures |p| <= |s|
  {
    if p != [] {
      var last := p[|p| - 1];
      assert last in p;
      forall k | k in p[..|p| - 1] ensures k in s - {last} {
        assert k in p;
      }
      DistinctWithinSet(p[..|p| - 1], s - {last});
    }
  }

  /** A path whose last node depends on its `j`-th node runs into a cycle. */
  lemma ClosingEdge(g: Edges, p: seq<Key>, j: nat)
    requires IsPath(g, p) && j < |p| && HasEdge(g, p[|p| - 1], p[j])
    ensures CycleReachable(g, p[0])
  {
    var tail := p[j..];
    forall i | 0 <= i < |tail| - 1 ensures HasEdge(g, tail[i], tail[i + 1]) {
      assert HasEdge(g, p[j + i], p[j + i + 1]);
    }
    assert PathFromTo(g, tail, p[j], p[|p| - 1]);
    EdgeClosesCycle(g, p[|p| - 1], p[j]);
    assert PathFromTo(g, p, p[0], p[|p| - 1]);
  }

  ghost predicate DependsInto(g: Edges, n: Key, s: set<Key>) {
    exists d :: d in Dependencies(g, n) && d in s
  }

  /** Every member of `s` depends on some member of `s`. */
  ghost predicate Trapped(g: Edges, s: set<Key>) {
    forall n {:trigger DependsInto(g, n, s)} :: n in s ==> DependsInto(g, n, s)
  }

  /** Following dependencies inside a finite set must revisit a node. */
  lemma {:induction false} WalkRevisits(g: Edges, s: set<Key>, p: seq<Key>)
    requires Trapped(g, s)
    requires IsPath(g, p) && NoDuplicates(p) && forall k :: k in p ==> k in s
    ensures CycleReachable(g, p[0])
    decreases |s| - |p|
  {
    DistinctWithinSet(p, s);
    var last := p[|p| - 1];
    assert last in p && DependsInto(g, last, s);
    var d :| d in Dependencies(g, last) && d in s;
    if d in p {
      var j :| 0 <= j < |p| && p[j] == d;
      ClosingEdge(g, p, j);
    } else {
      DistinctWithinSet(p + [d], s);
      WalkRevisits(g, s, p + [d]);
    }
  }

  lemma TrappedReachesCycle(g: Edges, s: set<Key>, n: Key)
    requires Trapped(g, s)
    requires n in s
    ensures CycleReachable(g, n)
  {
    WalkRevisits(g, s, [n]);
  }

  lemma CycleReachableIsCyclic(g: Edges, n: Key)
    ensures OnCycle(g, n) ==> CycleReachable(g, n)
    ensures CycleReachable(g, n) ==> !Acyclic(g)
  {
    ReachesSelf(g, n);
  }

  // ----- queues -----

  lemma Requeue(ready: seq<Key>, queue: seq<Key>, more: seq<Key>)
    requires queue != []
    ensures (ready + [queue[0]]) + (queue[1..] + more) == (ready + queue) + more
  {
  }
}

/** Kahn's algorithm with a stable seed, split into `ready` and `stuck`. */
module Toposort {
  import opened GraphModel
  import opened KeyOrder
  import opened Graphs

  datatype Order = Order(ready: seq<Key>, stuck: seq<Key>)

  // ----- the order as a function of the edge relation alone -----

  ghost predicate Closed(r: Relation) {
    forall n :: n in r ==> r[n] <= r.Keys
  }

  function Members(s: seq<Key>): set<Key> {
    set k | k in s
  }

  /** The nodes whose last missing dependency is `node`, in key order. */
  function Released(r: Relation, done: set<Key>, node: Key): seq<Key> {
    InKeyOrder(set n | n in r && node in r[n] && r[n] <= done + {node})
  }

  /**
   `line[..k]` has been ordered and `line[k..]` is queued: each node once, and
   a node is in line exactly when all its dependencies have been ordered.
   */
  ghost predicate InLine(r: Relation, line: seq<Key>, k: nat) {
    && Closed(r)
    && k <= |line|
    && NoDuplicates(line)
    && forall n {:trigger n in line} :: n in line <==> n in r && r[n] <= Members(line[..k])
  }

  lemma InLineBound(r: Relation, line: seq<Key>, k: nat)
    requires InLine(r, line, k)
    ensures |line| <= |r|
  {
    DistinctWithinSet(line, r.Keys);
  }

  lemma DistinctJoin(a: seq<Key>, b: seq<Key>)
    requires NoDuplicates(a) && NoDuplicates(b) && forall n :: n in b ==> n !in a
    ensures NoDuplicates(a + b)
  {
    forall i, j | 0 <= i < j < |a + b| ensures (a + b)[i] != (a + b)[j] {
      if i < |a| <= j {
        assert (a + b)[i] in a && (a + b)[j] in b;
      }
    }
  }

  /** Ordering one more node releases exactly the nodes it was the last to hold back. */
  lemma ReleasedCompletes(r: Relation, done: set<Key>, node: Key, n: Key)
    ensures (n in r && r[n] <= done) || n in Released(r, done, node) <==> n in r && r[n] <= done + {node}
  {
    if n in r && r[n] <= done + {node} && node !in r[n] {
      assert r[n] <= done;
    }
  }

  /** Ordering the head of the queue and queueing what it releases. */
  lemma InLineStep(r: Relation, line: seq<Key>, k: nat)
    requires InLine(r, line, k) && k < |line|
    ensures InLine(r, line + Released(r, Members(line[..k]), line[k]), k + 1)
  {
    var done, node := Members(line[..k]), line[k];
    var more := Released(r, done, node);
    var next := line + more;
    assert node !in done;
    assert next[..k + 1] == line[..k] + [node];
    MembersSnoc(line[..k], node);
    forall n | n in more ensures n !in line {
      assert node in r[n];
    }
    DistinctJoin(line, more);
    hide Members, Released, Closed;
    forall n ensures n in next <==> n in r && r[n] <= done + {node} {
      ReleasedCompletes(r, done, node, n);
    }
  }

  /** Run the queue down. In the end everything queued has been ordered. */
  function KahnFrom(r: Relation, line: seq<Key>, k: nat): (ready: seq<Key>)
    requires InLine(r, line, k)
    ensures InLine(r, ready, |ready|)
    decreases |r| - k
  {
    InLineBound(r, line, k);
    if k == |line| then line
    else
      InLineStep(r, line, k);
      KahnFrom(r, line + Released(r, Members(line[..k]), line[k]), k + 1)
  }

  function Seeds(r: Relation): seq<Key> {
    InKeyOrder(set n | n in r && r[n] == {})
  }

  lemma SeedsInLine(r: Relation)
    requires Closed(r)
    ensures InLine(r, Seeds(r), 0)
  {
  }

  /** The ready nodes of a relation, first in first out from the seeds. */
  function KahnOrder(r: Relation): (ready: seq<Key>)
    requires Closed(r)
    ensures InLine(r, ready, |ready|)
  {
    SeedsInLine(r);
    KahnFrom(r, Seeds(r), 0)
  }

  // ----- levels: the ready nodes come out by longest dependency chain -----

  /** The longest path of dependencies from `n` has exactly `k` edges. */
  ghost predicate LongestChain(g: Edges, n: Key, k: nat) {
    && (exists p :: IsPath(g, p) && p[0] == n && |p| == k + 1)
    && (forall p :: IsPath(g, p) && p[0] == n ==> |p| <= k + 1)
  }

  /** Each node sits one level above the highest of its dependencies. */
  ghost predicate LevelOf(r: Relation, line: seq<Key>, level: seq<nat>, i: nat)
    requires |level| == |line| && i < |line|
  {
    && line[i] in r
    && (forall d :: d in r[line[i]] ==> exists j :: 0 <= j < i && line[j] == d && level[j] < level[i])
    && (level[i] > 0 ==> exists j :: 0 <= j < i && line[j] in r[line[i]] && level[j] == level[i] - 1)
  }

  ghost predicate Levelled(r: Relation, line: seq<Key>, k: nat, level: seq<nat>) {
    && |level| == |line|
    && Nondecreasing(level)
    && (k < |line| ==> level[|line| - 1] <= level[k] + 1)
    && forall i :: 0 <= i < |line| ==> LevelOf(r, line, level, i)
  }

  lemma LevelKept(r: Relation, line: seq<Key>, level: seq<nat>, more: seq<Key>, added: seq<nat>, i: nat)
    requires |level| == |line| && |added| == |more| && i < |line| && LevelOf(r, line, level, i)
    ensures LevelOf(r, line + more, level + added, i)
  {
    var line', level' := line + more, level + added;
    forall d | d in r[line[i]] ensures exists j :: 0 <= j < i && line'[j] == d && level'[j] < level'[i] {
      var j :| 0 <= j < i && line[j] == d && level[j] < level[i];
      assert line'[j] == d && level'[j] < level'[i];
    }
    if level[i] > 0 {
      var j :| 0 <= j < i && line[j] in r[line[i]] && level[j] == level[i] - 1;
      assert line'[j] in r[line'[i]] && level'[j] == level'[i] - 1;
    }
  }

  /** A node released by `line[k]` sits one level above `line[k]`. */
  lemma LevelReleased(r: Relation, line: seq<Key>, k: nat, level: seq<nat>, line': seq<Key>, level': seq<nat>, i: nat)
    requires InLine(r, line, k) && k < |line| && |level| == |line| && Nondecreasing(level)
    requires line <= line' && level <= level' && |level'| == |line'| && |line| <= i < |line'|
    requires line'[i] in Released(r, Members(line[..k]), line[k]) && level'[i] == level[k] + 1
    ensures LevelOf(r, line', level', i)
  {
    var node := line'[i];
    forall d | d in r[node] ensures exists j :: 0 <= j < i && line'[j] == d && level'[j] < level'[i] {
      if d == line[k] {
        assert line'[k] == d && level'[k] < level'[i];
      } else {
        var j :| 0 <= j < k && line[j] == d;
        assert line'[j] == d && level'[j] == level[j] <= level[k];
      }
    }
    assert line'[k] in r[node] && level'[k] == level'[i] - 1;
  }

  lemma LevelledStep(r: Relation, line: seq<Key>, k: nat, level: seq<nat>, more: seq<Key>, added: seq<nat>)
    requires InLine(r, line, k) && k < |line| && Levelled(r, line, k, level)
    requires more == Released(r, Members(line[..k]), line[k])
    requires |added| == |more| && forall i :: 0 <= i < |added| ==> added[i] == level[k] + 1
    ensures Levelled(r, line + more, k + 1, level + added)
  {
    var line', level' := line + more, level + added;
    forall i | 0 <= i < |line'| ensures LevelOf(r, line', level', i) {
      if i < |line| {
        LevelKept(r, line, level, more, added, i);
      } else {
        assert line'[i] in more;
        LevelReleased(r, line, k, level, line', level', i);
      }
    }
  }

  lemma {:induction false} KahnFromLevels(r: Relation, line: seq<Key>, k: nat, level: seq<nat>)
    returns (out: seq<nat>)
    requires InLine(r, line, k) && Levelled(r, line, k, level)
    ensures Levelled(r, KahnFrom(r, line, k), |KahnFrom(r, line, k)|, out)
    decreases |r| - k
  {
    InLineBound(r, line, k);
    if k == |line| {
      out := level;
    } else {
      InLineStep(r, line, k);
      var more := Released(r, Members(line[..k]), line[k]);
      var added := seq(|more|, _ => level[k] + 1);
      LevelledStep(r, line, k, level, more, added);
      out := KahnFromLevels(r, line + more, k + 1, level + added);
    }
  }

  lemma RelationClosed(g: Edges)
    requires WellFormed(g)
    ensures Closed(EdgeRelation(g))
  {
  }

  lemma ReadyLevels(r: Relation) returns (level: seq<nat>)
    requires Closed(r)
    ensures Levelled(r, KahnOrder(r), |KahnOrder(r)|, level)
  {
    SeedsInLine(r);
    var zeros := seq(|Seeds(r)|, _ => 0);
    assert Levelled(r, Seeds(r), 0, zeros) by {
      forall i | 0 <= i < |Seeds(r)| ensures LevelOf(r, Seeds(r), zeros, i) {
        assert Seeds(r)[i] in Seeds(r);
      }
    }
    level := KahnFromLevels(r, Seeds(r), 0, zeros);
  }

  /** A path never climbs: it has at most as many edges as its start's level. */
  lemma {:induction false} PathWithinLevel(g: Edges, line: seq<Key>, level: seq<nat>, p: seq<Key>, i: nat)
    requires |level| == |line| && i < |line|
    requires forall i :: 0 <= i < |line| ==> LevelOf(EdgeRelation(g), line, level, i)
    requires IsPath(g, p) && p[0] == line[i]
    ensures |p| <= level[i] + 1
    decreases |p|
  {
    if |p| > 1 {
      assert HasEdge(g, p[0], p[0 + 1]);
      assert LevelOf(EdgeRelation(g), line, level, i);
      assert p[1] in EdgeRelation(g)[line[i]];
      var j :| 0 <= j < i && line[j] == p[1] && level[j] < level[i];
      var tail := p[1..];
      forall i | 0 <= i < |tail| - 1 ensures HasEdge(g, tail[i], tail[i + 1]) {
        assert HasEdge(g, p[i + 1], p[i + 1 + 1]);
      }
      PathWithinLevel(g, line, level, tail, j);
    }
  }

  lemma {:induction false} PathOfLevel(g: Edges, line: seq<Key>, level: seq<nat>, i: nat)
    returns (p: seq<Key>)
    requires |level| == |line| && i < |line|
    requires forall i :: 0 <= i < |line| ==> LevelOf(EdgeRelation(g), line, level, i)
    ensures IsPath(g, p) && p[0] == line[i] && |p| == level[i] + 1
    decreases i
  {
    assert LevelOf(EdgeRelation(g), line, level, i);
    p := [line[i]];
    if level[i] > 0 {
      var j :| 0 <= j < i && line[j] in EdgeRelation(g)[line[i]] && level[j] == level[i] - 1;
      var tail := PathOfLevel(g, line, level, j);
      p := [line[i]] + tail;
      forall i | 0 <= i < |p| - 1 ensures HasEdge(g, p[i], p[i + 1]) {
        if i > 0 {
          assert HasEdge(g, tail[i - 1], tail[i - 1 + 1]);
        }
      }
    }
  }

  lemma LevelsAreLongestChains(g: Edges, line: seq<Key>, level: seq<nat>)
    requires |level| == |line|
    requires forall i :: 0 <= i < |line| ==> LevelOf(EdgeRelation(g), line, level, i)
    ensures forall i :: 0 <= i < |line| ==> LongestChain(g, line[i], level[i])
  {
    forall i | 0 <= i < |line| ensures LongestChain(g, line[i], level[i]) {
      var p := PathOfLevel(g, line, level, i);
      forall p | IsPath(g, p) && p[0] == line[i] ensures |p| <= level[i] + 1 {
        PathWithinLevel(g, line, level, p, i);
      }
    }
  }

  /** The ready nodes come out in order of their longest dependency chain. */
  ghost predicate ByLongestChain(g: Edges, ready: seq<Key>) {
    exists level: seq<nat> :: |level| == |ready| && Nondecreasing(level) &&
      forall i :: 0 <= i < |ready| ==> LongestChain(g, ready[i], level[i])
  }

  lemma ReadyByLongestChain(g: Edges)
    requires WellFormed(g)
    ensures Closed(EdgeRelation(g)) && ByLongestChain(g, KahnOrder(EdgeRelation(g)))
  {
    RelationClosed(g);
    var r := EdgeRelation(g);
    var level := ReadyLevels(r);
    LevelsAreLongestChains(g, KahnOrder(r), level);
  }

  // ----- exactness -----

  lemma LevelsGiveOrder(g: Edges, line: seq<Key>, level: seq<nat>)
    requires |level| == |line|
    requires forall i :: 0 <= i < |line| ==> LevelOf(EdgeRelation(g), line, level, i)
    ensures DependenciesFirst(g, line)
  {
    forall i, d | 0 <= i < |line| && HasEdge(g, line[i], d) ensures d in line[..i] {
      assert LevelOf(EdgeRelation(g), line, level, i);
      assert d in EdgeRelation(g)[line[i]];
    }
  }

  lemma ReadyFollowsDependencies(g: Edges)
    requires WellFormed(g)
    ensures Closed(EdgeRelation(g)) && DependenciesFirst(g, KahnOrder(EdgeRelation(g)))
  {
    RelationClosed(g);
    var r := EdgeRelation(g);
    var level := ReadyLevels(r);
    LevelsGiveOrder(g, KahnOrder(r), level);
  }

  /** A node is ready exactly when no cycle is reachable from it. */
  lemma ReadyIsExact(g: Edges)
    requires WellFormed(g)
    ensures Closed(EdgeRelation(g))
    ensures var ready := KahnOrder(EdgeRelation(g));
            && NoDuplicates(ready)
            && DependenciesFirst(g, ready)
            && forall n :: n in ready <==> n in g && !CycleReachable(g, n)
  {
    var r := EdgeRelation(g);
    SeedsInLine(r);
    var ready := KahnOrder(r);
    ReadyFollowsDependencies(g);
    assert ready[..|ready|] == ready;
    var rest := g.Keys - Members(ready);
    forall n | n in rest ensures DependsInto(g, n, rest) {
      assert !(r[n] <= Members(ready));
      var d :| d in r[n] && d !in Members(ready);
      assert d in Dependencies(g, n) && d in rest;
    }
    forall n ensures n in ready <==> n in g && !CycleReachable(g, n) {
      if n in ready {
        OrderedReachesNoCycle(g, ready, n);
      } else if n in g {
        TrappedReachesCycle(g, rest, n);
      }
    }
  }

  // ----- the algorithm -----

  /** `dependents` lists, in key order, the nodes that depend on each node. */
  ghost predicate ListsDependents(r: Relation, dependents: Edges) {
    && (forall d :: Ascending(Dependencies(dependents, d)))
    && (forall d, n :: n in Dependencies(dependents, d) <==> n in r && d in r[n])
  }

  /** The double loop has passed the edge from `n` to `d`. */
  ghost predicate Visited(g: Edges, nodes: seq<Key>, i: nat, j: nat, n: Key, d: Key) {
    && i <= |nodes|
    && (n in nodes[..i] || (i < |nodes| && n == nodes[i] && j <= |Dependencies(g, n)| && d in Dependencies(g, n)[..j]))
  }

  ghost predicate ListedSoFar(g: Edges, list: seq<Key>, nodes: seq<Key>, i: nat, j: nat, d: Key) {
    Ascending(list) && forall n :: n in list <==> HasEdge(g, n, d) && Visited(g, nodes, i, j, n, d)
  }

  ghost predicate DependentsSoFar(g: Edges, dependents: Edges, nodes: seq<Key>, i: nat, j: nat) {
    forall d :: ListedSoFar(g, Dependencies(dependents, d), nodes, i, j, d)
  }

  lemma AscendingSnoc(s: seq<Key>, x: Key)
    requires Ascending(s) && forall k :: k in s ==> k < x
    ensures Ascending(s + [x])
  {
    assert forall i :: 0 <= i < |s| ==> s[i] in s;
  }

  lemma ListedStep(g: Edges, list: seq<Key>, nodes: seq<Key>, i: nat, j: nat, d: Key)
    requires Ascending(nodes) && i < |nodes| && j < |Dependencies(g, nodes[i])|
    requires NoDuplicates(Dependencies(g, nodes[i]))
    requires ListedSoFar(g, list, nodes, i, j, d)
    ensures ListedSoFar(g, if d == Dependencies(g, nodes[i])[j] then list + [nodes[i]] else list, nodes, i, j + 1, d)
  {
    var deps := Dependencies(g, nodes[i]);
    assert deps[..j + 1] == deps[..j] + [deps[j]];
    assert deps[j] !in deps[..j];
    if d == deps[j] {
      forall n | n in list ensures n < nodes[i] {
        assert n in nodes[..i];
      }
      AscendingSnoc(list, nodes[i]);
    }
  }

  lemma ListedNextNode(g: Edges, list: seq<Key>, nodes: seq<Key>, i: nat, d: Key)
    requires i < |nodes| && ListedSoFar(g, list, nodes, i, |Dependencies(g, nodes[i])|, d)
    ensures ListedSoFar(g, list, nodes, i + 1, 0, d)
  {
    var deps := Dependencies(g, nodes[i]);
    assert deps[..|deps|] == deps;
    assert nodes[..i + 1] == nodes[..i] + [nodes[i]];
    if i + 1 < |nodes| {
      assert Dependencies(g, nodes[i + 1])[..0] == [];
    }
  }

  lemma DependentAdded(g: Edges, dependents: Edges, nodes: seq<Key>, i: nat, j: nat, d: Key)
    requires Ascending(nodes) && i < |nodes| && j < |Dependencies(g, nodes[i])|
    requires NoDuplicates(Dependencies(g, nodes[i])) && d == Dependencies(g, nodes[i])[j]
    requires DependentsSoFar(g, dependents, nodes, i, j)
    ensures DependentsSoFar(g, dependents[d := Dependencies(dependents, d) + [nodes[i]]], nodes, i, j + 1)
  {
    var next := dependents[d := Dependencies(dependents, d) + [nodes[i]]];
    forall e ensures ListedSoFar(g, Dependencies(next, e), nodes, i, j + 1, e) {
      ListedStep(g, Dependencies(dependents, e), nodes, i, j, e);
    }
  }

  lemma DependentsNextNode(g: Edges, dependents: Edges, nodes: seq<Key>, i: nat)
    requires i < |nodes| && DependentsSoFar(g, dependents, nodes, i, |Dependencies(g, nodes[i])|)
    ensures DependentsSoFar(g, dependents, nodes, i + 1, 0)
  {
    forall d ensures ListedSoFar(g, Dependencies(dependents, d), nodes, i + 1, 0, d) {
      ListedNextNode(g, Dependencies(dependents, d), nodes, i, d);
    }
  }

  lemma DependentsDone(g: Edges, dependents: Edges, nodes: seq<Key>)
    requires DependentsSoFar(g, dependents, nodes, |nodes|, 0)
    requires forall n :: n in g ==> n in nodes
    ensures ListsDependents(EdgeRelation(g), dependents)
  {
    assert nodes[..|nodes|] == nodes;
    forall d ensures ListedSoFar(g, Dependencies(dependents, d), nodes, |nodes|, 0, d) {
    }
    forall d, n ensures n in Dependencies(dependents, d) <==> n in g && d in Targets(g, n) {
      assert ListedSoFar(g, Dependencies(dependents, d), nodes, |nodes|, 0, d);
      assert HasEdge(g, n, d) <==> n in g && d in Targets(g, n);
    }
  }

  method DependentsOf(graph: Graph) returns (dependents: Edges)
    requires graph.Valid()
    ensures ListsDependents(EdgeRelation(graph.edges), dependents)
  {
    var g := graph.edges;
    var nodes := InKeyOrder(g.Keys);
    dependents := map[];
    assert DependentsSoFar(g, dependents, nodes, 0, 0);
    hide DependentsSoFar, ListsDependents, InKeyOrder, Ascending;
    for i := 0 to |nodes|
      invariant DependentsSoFar(g, dependents, nodes, i, 0)
    {
      var node := nodes[i];
      assert node in nodes;
      for j := 0 to |g[node]|
        invariant DependentsSoFar(g, dependents, nodes, i, j)
      {
        var dependency := g[node][j];
        DependentAdded(g, dependents, nodes, i, j, dependency);
        dependents := dependents[dependency := Dependencies(dependents, dependency) + [node]];
      }
      DependentsNextNode(g, dependents, nodes, i);
    }
    DependentsDone(g, dependents, nodes);
  }

  lemma DistinctCount(s: seq<Key>)
    requires NoDuplicates(s)
    ensures |Members(s)| == |s|
  {
    if s != [] {
      var init := s[..|s| - 1];
      DistinctCount(init);
      assert s == init + [s[|s| - 1]];
      assert Members(s) == Members(init) + {s[|s| - 1]};
    }
  }

  /** `pending` counts the dependencies not yet in `done`. */
  ghost predicate Counts(r: Relation, pending: map<Key, nat>, done: set<Key>) {
    pending.Keys == r.Keys && forall n {:trigger pending[n]} :: n in r ==> pending[n] == |r[n] - done|
  }

  /** Partway through the dependents of `node`: those in `seen` are counted down. */
  ghost predicate CountsPartway(r: Relation, pending: map<Key, nat>, done: set<Key>, node: Key, seen: seq<Key>) {
    && pending.Keys == r.Keys
    && forall n {:trigger pending[n]} :: n in r ==>
       pending[n] == if n in seen then |r[n] - done - {node}| else |r[n] - done|
  }

  lemma LastDependency(deps: set<Key>, done: set<Key>, node: Key)
    requires node in deps && node !in done
    ensures |deps - done| == |deps - done - {node}| + 1
    ensures |deps - done - {node}| == 0 <==> deps <= done + {node}
  {
    if |deps - done - {node}| == 0 {
      assert forall d :: d in deps ==> d in done + {node} || d in deps - done - {node};
    }
  }

  /** With `node` out of the way nothing holds `n` back. */
  predicate Frees(r: Relation, done: set<Key>, node: Key, n: Key) {
    n in r && r[n] <= done + {node}
  }

  /** The nodes of `seen` that `node` was the last to hold back. */
  function FreedIn(r: Relation, done: set<Key>, node: Key, seen: seq<Key>): (freed: seq<Key>)
    ensures forall n :: n in freed <==> n in seen && Frees(r, done, node, n)
  {
    if seen == [] then []
    else
      var last := seen[|seen| - 1];
      FreedIn(r, done, node, seen[..|seen| - 1]) + (if Frees(r, done, node, last) then [last] else [])
  }

  lemma FreedInAscending(r: Relation, done: set<Key>, node: Key, seen: seq<Key>)
    requires Ascending(seen)
    ensures Ascending(FreedIn(r, done, node, seen))
  {
    if seen != [] {
      var init, last := seen[..|seen| - 1], seen[|seen| - 1];
      FreedInAscending(r, done, node, init);
      assert forall k :: k in init ==> k < last;
      AscendingSnoc(FreedIn(r, done, node, init), last);
    }
  }

  lemma FreedIsReleased(r: Relation, dependents: Edges, done: set<Key>, node: Key)
    requires ListsDependents(r, dependents)
    ensures FreedIn(r, done, node, Dependencies(dependents, node)) == Released(r, done, node)
  {
    var all := Dependencies(dependents, node);
    FreedInAscending(r, done, node, all);
    AscendingUnique(FreedIn(r, done, node, all), Released(r, done, node));
  }

  lemma NothingMissing(deps: set<Key>, done: set<Key>)
    ensures |deps - done| == 0 <==> deps <= done
  {
    if deps - done == {} {
      assert forall d :: d in deps ==> d in done || d in deps - done;
    }
  }

  /** What is left over once the queue is empty, in key order. */
  lemma StuckIsTheRest(r: Relation, pending: map<Key, nat>, ready: seq<Key>)
    requires InLine(r, ready, |ready|) && Counts(r, pending, Members(ready))
    ensures forall n :: n in r ==> (pending[n] > 0 <==> n !in ready)
  {
    assert ready[..|ready|] == ready;
    forall n | n in r ensures pending[n] > 0 <==> n !in ready {
      NothingMissing(r[n], Members(ready));
    }
  }

  lemma CountsBegin(g: Edges, pending: map<Key, nat>)
    requires WellFormed(g) && pending == map n | n in g :: |g[n]|
    ensures Counts(EdgeRelation(g), pending, {})
  {
    forall n | n in g ensures pending[n] == |EdgeRelation(g)[n] - {}| {
      DistinctCount(g[n]);
      assert Members(g[n]) == EdgeRelation(g)[n];
    }
  }

  /** Counting down one dependent: it was above zero, and zero means freed. */
  lemma CountDown(r: Relation, pending: map<Key, nat>, done: set<Key>, node: Key, list: seq<Key>, j: nat)
    requires Ascending(list) && j < |list| && node !in done
    requires CountsPartway(r, pending, done, node, list[..j])
    requires list[j] in r && node in r[list[j]]
    ensures list[j] in pending && pending[list[j]] > 0
    ensures pending[list[j]] == 1 <==> Frees(r, done, node, list[j])
    ensures CountsPartway(r, pending[list[j] := pending[list[j]] - 1], done, node, list[..j + 1])
  {
    assert list[j] !in list[..j];
    assert list[..j + 1] == list[..j] + [list[j]];
    LastDependency(r[list[j]], done, node);
  }

  lemma CountsComplete(r: Relation, pending: map<Key, nat>, done: set<Key>, node: Key, list: seq<Key>)
    requires CountsPartway(r, pending, done, node, list)
    requires forall n :: n in r && node in r[n] ==> n in list
    ensures Counts(r, pending, done + {node})
  {
    forall n | n in r ensures pending[n] == |r[n] - (done + {node})| {
      assert r[n] - (done + {node}) == r[n] - done - {node};
      if n !in list {
        assert r[n] - done == r[n] - done - {node};
      }
    }
  }

  lemma FreedSnoc(r: Relation, done: set<Key>, node: Key, list: seq<Key>, j: nat)
    requires j < |list|
    ensures FreedIn(r, done, node, list[..j + 1]) ==
            FreedIn(r, done, node, list[..j]) + (if Frees(r, done, node, list[j]) then [list[j]] else [])
  {
    assert list[..j + 1][..j] == list[..j];
  }

  lemma Appended(queue: seq<Key>, freed: seq<Key>, next: Key)
    ensures queue + (freed + [next]) == queue + freed + [next]
  {
  }

  lemma WholePrefix(list: seq<Key>)
    ensures list[..|list|] == list
  {
  }

  lemma ReleaseBegins(r: Relation, dependents: Edges, node: Key, done: set<Key>, pending: map<Key, nat>)
    requires ListsDependents(r, dependents) && Counts(r, pending, done)
    ensures var list := Dependencies(dependents, node);
            && Ascending(list)
            && (forall n :: n in list <==> n in r && node in r[n])
            && CountsPartway(r, pending, done, node, list[..0]) && FreedIn(r, done, node, list[..0]) == []
  {
  }

  /** Count down the dependents of `node` and queue everything it frees. */
  method Release(
    ghost r: Relation, dependents: Edges, node: Key, ghost done: set<Key>, pending: map<Key, nat>, queue: seq<Key>)
    returns (pending': map<Key, nat>, queue': seq<Key>)
    requires ListsDependents(r, dependents) && node !in done
    requires Counts(r, pending, done)
    ensures Counts(r, pending', done + {node})
    ensures queue' == queue + Released(r, done, node)
  {
    hide Released, ListsDependents, Ascending, Counts, CountsPartway, FreedIn, Frees, Dependencies;
    pending', queue' := pending, queue;
    ghost var freed: seq<Key> := [];
    var list := Dependencies(dependents, node);
    ReleaseBegins(r, dependents, node, done, pending);
    for j := 0 to |list|
      invariant CountsPartway(r, pending', done, node, list[..j])
      invariant freed == FreedIn(r, done, node, list[..j]) && queue' == queue + freed
    {
      var dependent := list[j];
      assert dependent in list;
      CountDown(r, pending', done, node, list, j);
      FreedSnoc(r, done, node, list, j);
      var count: nat := pending'[dependent] - 1;
      pending' := pending'[dependent := count];
      if count == 0 {
        Appended(queue, freed, dependent);
        freed, queue' := freed + [dependent], queue' + [dependent];
      }
    }
    WholePrefix(list);
    FreedIsReleased(r, dependents, done, node);
    CountsComplete(r, pending', done, node, list);
  }

  lemma SeedsArePending(r: Relation, pending: map<Key, nat>, queue: seq<Key>)
    requires Counts(r, pending, {})
    requires Ascending(queue) && forall n :: n in queue <==> n in pending && pending[n] == 0
    ensures queue == Seeds(r)
  {
    forall n | n in r ensures n in queue <==> n in Seeds(r) {
      NothingMissing(r[n], {});
    }
    AscendingUnique(queue, Seeds(r));
  }

  lemma MembersSnoc(s: seq<Key>, x: Key)
    ensures Members(s + [x]) == Members(s) + {x}
  {
  }

  lemma StuckIsExact(g: Edges, pending: map<Key, nat>, ready: seq<Key>, stuck: seq<Key>)
    requires WellFormed(g) && Closed(EdgeRelation(g)) && ready == KahnOrder(EdgeRelation(g))
    requires Counts(EdgeRelation(g), pending, Members(ready))
    requires forall n :: n in stuck <==> n in pending && pending[n] > 0
    ensures forall n :: n in stuck <==> n in g && CycleReachable(g, n)
  {
    ReadyIsExact(g);
    StuckIsTheRest(EdgeRelation(g), pending, ready);
  }

  /** One turn of the queue keeps the line and the order it will end with. */
  lemma KahnStep(r: Relation, ready: seq<Key>, queue: seq<Key>)
    requires queue != [] && InLine(r, ready + queue, |ready|)
    ensures queue[0] !in Members(ready) && |ready| < |r|
    ensures Members(ready + [queue[0]]) == Members(ready) + {queue[0]}
    ensures var line := (ready + [queue[0]]) + (queue[1..] + Released(r, Members(ready), queue[0]));
            InLine(r, line, |ready| + 1) && KahnFrom(r, line, |ready| + 1) == KahnFrom(r, ready + queue, |ready|)
  {
    var line, k := ready + queue, |ready|;
    InLineBound(r, line, k);
    InLineStep(r, line, k);
    assert line[..k] == ready && line[k] == queue[0];
    MembersSnoc(ready, queue[0]);
    Requeue(ready, queue, Released(r, Members(ready), queue[0]));
  }

  lemma DrainBegins(r: Relation, ready: seq<Key>, queue: seq<Key>)
    requires Closed(r) && ready == [] && queue == Seeds(r)
    ensures InLine(r, ready + queue, |ready|) && KahnFrom(r, ready + queue, |ready|) == KahnOrder(r)
    ensures Members(ready) == {}
  {
    SeedsInLine(r);
    assert ready + queue == queue;
  }

  lemma DrainEnds(r: Relation, ready: seq<Key>, queue: seq<Key>)
    requires queue == [] && InLine(r, ready + queue, |ready|)
    ensures KahnFrom(r, ready + queue, |ready|) == ready
  {
    assert ready + queue == ready;
  }

  /** Run the queue down from the seeds. */
  method Drain(ghost r: Relation, dependents: Edges, pending: map<Key, nat>, seeds: seq<Key>)
    returns (ready: seq<Key>, pending': map<Key, nat>)
    requires Closed(r) && ListsDependents(r, dependents) && Counts(r, pending, {}) && seeds == Seeds(r)
    ensures ready == KahnOrder(r) && Counts(r, pending', Members(ready))
  {
    hide InLine, KahnFrom, KahnOrder, Counts, ListsDependents, Closed;
    ready, pending' := [], pending;
    var queue := seeds;
    DrainBegins(r, ready, queue);
    while queue != []
      invariant InLine(r, ready + queue, |ready|)
      invariant KahnFrom(r, ready + queue, |ready|) == KahnOrder(r)
      invariant Counts(r, pending', Members(ready))
      decreases |r| - |ready|
    {
      KahnStep(r, ready, queue);
      var node := queue[0];
      pending', queue := Release(r, dependents, node, Members(ready), pending', queue[1..]);
      ready := ready + [node];
    }
    DrainEnds(r, ready, queue);
  }

  /** What `toposort` promises of the order it returns. */
  ghost predicate IsExact(g: Edges, order: Order) {
    && NoDuplicates(order.ready) && Ascending(order.stuck)
    && DependenciesFirst(g, order.ready)
    && (forall n :: n in order.ready <==> n in g && !CycleReachable(g, n))
    && (forall n :: n in order.stuck <==> n in g && CycleReachable(g, n))
    && ByLongestChain(g, order.ready)
  }

  lemma OrderIsExact(g: Edges, pending: map<Key, nat>, ready: seq<Key>, stuck: seq<Key>)
    requires WellFormed(g) && Closed(EdgeRelation(g)) && ready == KahnOrder(EdgeRelation(g))
    requires Counts(EdgeRelation(g), pending, Members(ready))
    requires Ascending(stuck) && forall n :: n in stuck <==> n in pending && pending[n] > 0
    ensures IsExact(g, Order(ready, stuck))
  {
    StuckIsExact(g, pending, ready, stuck);
    ReadyIsExact(g);
    ReadyByLongestChain(g);
  }

  /** The whole order as a function of the edge relation alone. */
  function OrderOf(r: Relation): Order
    requires Closed(r)
  {
    var ready := KahnOrder(r);
    Order(ready, InKeyOrder(r.Keys - Members(ready)))
  }

  lemma ExactOrderIsUnique(g: Edges, order: Order)
    requires IsExact(g, order) && Closed(EdgeRelation(g)) && order.ready == KahnOrder(EdgeRelation(g))
    ensures order == OrderOf(EdgeRelation(g))
  {
    hide CycleReachable, ByLongestChain, DependenciesFirst, KahnOrder;
    AscendingUnique(order.stuck, OrderOf(EdgeRelation(g)).stuck);
  }

  /** Two insertion orders of the same edges give the same order, ready and stuck nodes alike. */
  lemma OrderForgetsInsertion(a: seq<Dependency>, b: seq<Dependency>)
    requires forall e :: e in a <==> e in b
    ensures Closed(EdgeRelation(Build(a))) && Closed(EdgeRelation(Build(b)))
    ensures OrderOf(EdgeRelation(Build(a))) == OrderOf(EdgeRelation(Build(b)))
  {
    BuildHolds(a);
    RelationClosed(Build(a));
    InsertionOrderForgotten(a, b);
  }

  /** Dependencies before dependents, with the nodes that cannot be placed set aside. */
  method Toposort(graph: Graph) returns (order: Order)
    requires graph.Valid()
    ensures IsExact(graph.edges, order)
    ensures Closed(EdgeRelation(graph.edges)) && order == OrderOf(EdgeRelation(graph.edges))
  {
    var g := graph.edges;
    RelationClosed(g);
    var pending: map<Key, nat> := map n | n in g :: |g[n]|;
    CountsBegin(g, pending);
    var dependents := DependentsOf(graph);
    var queue := InKeyOrder(set n | n in pending && pending[n] == 0);
    SeedsArePending(EdgeRelation(g), pending, queue);
    var ready;
    ready, pending := Drain(EdgeRelation(g), dependents, pending, queue);
    var stuck := InKeyOrder(set n | n in pending && pending[n] > 0);
    OrderIsExact(g, pending, ready, stuck);
    order := Order(ready, stuck);
    ExactOrderIsUnique(g, order);
  }
}

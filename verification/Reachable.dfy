/** Breadth-first reachability. */
module Reachable {
  import opened GraphModel
  import opened KeyOrder
  import opened Graphs

  /** The shortest path of dependencies from `a` to `b` has exactly `k` edges. */
  ghost predicate Distance(g: Edges, a: Key, b: Key, k: nat) {
    && (exists p :: PathFromTo(g, p, a, b) && |p| == k + 1)
    && (forall p :: PathFromTo(g, p, a, b) ==> |p| >= k + 1)
  }

  /** The nodes of `order` come out by shortest distance from `start`. */
  ghost predicate ByDistance(g: Edges, start: Key, order: seq<Key>) {
    exists dist: seq<nat> :: |dist| == |order| && Nondecreasing(dist) &&
      forall i :: 0 <= i < |order| ==> Distance(g, start, order[i], dist[i])
  }

  /** A node past the first was met one step behind an earlier one. */
  ghost predicate MetFrom(g: Edges, line: seq<Key>, dist: seq<nat>, i: nat)
    requires |dist| == |line| && i < |line|
  {
    exists j :: 0 <= j < i && HasEdge(g, line[j], line[i]) && dist[i] == dist[j] + 1
  }

  /** `n` has been met, no more than one step behind `from`. */
  ghost predicate MetWithin(line: seq<Key>, dist: seq<nat>, n: Key, bound: nat)
    requires |dist| == |line|
  {
    exists i :: 0 <= i < |line| && line[i] == n && dist[i] <= bound
  }

  /**
   `line[..k]` has been visited and `line[k..]` is queued. Each node is met
   once, one step behind an earlier one; the dependencies of visited nodes
   have all been met; and the queue spans at most two distances.
   */
  ghost predicate Front(g: Edges, start: Key, line: seq<Key>, k: nat, dist: seq<nat>) {
    && |dist| == |line| && k <= |line| && NoDuplicates(line)
    && |line| > 0 && line[0] == start && dist[0] == 0
    && (forall i :: 0 < i < |line| ==> MetFrom(g, line, dist, i))
    && Nondecreasing(dist)
    && (k < |line| ==> dist[|line| - 1] <= dist[k] + 1)
    && (forall i, d :: 0 <= i < k && HasEdge(g, line[i], d) ==> MetWithin(line, dist, d, dist[i] + 1))
  }

  lemma MetStays(line: seq<Key>, dist: seq<nat>, n: Key, bound: nat, d: Key, at: nat)
    requires |dist| == |line| && MetWithin(line, dist, n, bound)
    ensures MetWithin(line + [d], dist + [at], n, bound)
  {
    var i :| 0 <= i < |line| && line[i] == n && dist[i] <= bound;
    assert (line + [d])[i] == n && (dist + [at])[i] <= bound;
  }

  lemma MetFromStays(g: Edges, line: seq<Key>, dist: seq<nat>, i: nat, d: Key, at: nat)
    requires |dist| == |line| && i < |line| && MetFrom(g, line, dist, i)
    ensures MetFrom(g, line + [d], dist + [at], i)
  {
    var j :| 0 <= j < i && HasEdge(g, line[j], line[i]) && dist[i] == dist[j] + 1;
    assert HasEdge(g, (line + [d])[j], (line + [d])[i]);
  }

  /** Queueing a dependency of `line[k]` met for the first time. */
  lemma FrontGrows(g: Edges, start: Key, line: seq<Key>, k: nat, dist: seq<nat>, d: Key)
    requires Front(g, start, line, k, dist) && k < |line|
    requires HasEdge(g, line[k], d) && d !in line
    ensures Front(g, start, line + [d], k, dist + [dist[k] + 1])
    ensures MetWithin(line + [d], dist + [dist[k] + 1], d, dist[k] + 1)
  {
    var line', dist' := line + [d], dist + [dist[k] + 1];
    forall i | 0 < i < |line'| ensures MetFrom(g, line', dist', i) {
      if i < |line| {
        MetFromStays(g, line, dist, i, d, dist[k] + 1);
      } else {
        assert HasEdge(g, line'[k], line'[i]) && dist'[i] == dist'[k] + 1;
      }
    }
    forall i, e | 0 <= i < k && HasEdge(g, line'[i], e) ensures MetWithin(line', dist', e, dist'[i] + 1) {
      assert HasEdge(g, line[i], e);
      MetStays(line, dist, e, dist[i] + 1, d, dist[k] + 1);
    }
    assert line'[|line|] == d && dist'[|line|] <= dist[k] + 1;
  }

  /** A dependency of `line[k]` met before is no further than one step behind it. */
  lemma AlreadyMet(g: Edges, start: Key, line: seq<Key>, k: nat, dist: seq<nat>, d: Key)
    requires Front(g, start, line, k, dist) && k < |line| && d in line
    ensures MetWithin(line, dist, d, dist[k] + 1)
  {
    var i :| 0 <= i < |line| && line[i] == d;
    assert dist[i] <= dist[|line| - 1];
  }

  lemma FrontAdvances(g: Edges, start: Key, line: seq<Key>, k: nat, dist: seq<nat>)
    requires Front(g, start, line, k, dist) && k < |line|
    requires forall d :: HasEdge(g, line[k], d) ==> MetWithin(line, dist, d, dist[k] + 1)
    ensures Front(g, start, line, k + 1, dist)
  {
  }

  lemma {:induction false} PathIsMet(g: Edges, start: Key, line: seq<Key>, dist: seq<nat>, p: seq<Key>, m: nat)
    requires Front(g, start, line, |line|, dist) && IsPath(g, p) && p[0] == start && m < |p|
    ensures MetWithin(line, dist, p[m], m)
  {
    if m == 0 {
      assert line[0] == p[0] && dist[0] <= 0;
    } else {
      PathIsMet(g, start, line, dist, p, m - 1);
      var i :| 0 <= i < |line| && line[i] == p[m - 1] && dist[i] <= m - 1;
      assert HasEdge(g, p[m - 1], p[m - 1 + 1]);
      var j :| 0 <= j < |line| && line[j] == p[m] && dist[j] <= dist[i] + 1;
    }
  }

  lemma {:induction false} PathToMet(g: Edges, start: Key, line: seq<Key>, dist: seq<nat>, i: nat) returns (p: seq<Key>)
    requires Front(g, start, line, |line|, dist) && i < |line|
    ensures PathFromTo(g, p, start, line[i]) && |p| == dist[i] + 1
    decreases i
  {
    if i == 0 {
      p := [start];
    } else {
      assert MetFrom(g, line, dist, i);
      var j :| 0 <= j < i && HasEdge(g, line[j], line[i]) && dist[i] == dist[j] + 1;
      var q := PathToMet(g, start, line, dist, j);
      assert PathFromTo(g, [line[j], line[i]], line[j], line[i]);
      JoinPaths(g, q, [line[j], line[i]], start, line[j], line[i]);
      p := q + [line[j], line[i]][1..];
    }
  }

  /** When the queue is empty, exactly the reachable nodes are in line, by distance. */
  lemma FrontIsComplete(g: Edges, start: Key, line: seq<Key>, dist: seq<nat>)
    requires Front(g, start, line, |line|, dist)
    ensures forall n :: n in line <==> Reaches(g, start, n)
    ensures ByDistance(g, start, line)
  {
    forall n ensures n in line <==> Reaches(g, start, n) {
      if n in line {
        var i :| 0 <= i < |line| && line[i] == n;
        var p := PathToMet(g, start, line, dist, i);
      }
      if Reaches(g, start, n) {
        var p :| PathFromTo(g, p, start, n);
        PathIsMet(g, start, line, dist, p, |p| - 1);
      }
    }
    forall i | 0 <= i < |line| ensures Distance(g, start, line[i], dist[i]) {
      var q := PathToMet(g, start, line, dist, i);
      forall p | PathFromTo(g, p, start, line[i]) ensures |p| >= dist[i] + 1 {
        PathIsMet(g, start, line, dist, p, |p| - 1);
        var j :| 0 <= j < |line| && line[j] == p[|p| - 1] && dist[j] <= |p| - 1;
        assert i == j;
      }
    }
  }

  // ----- ties -----

  /** Each key once, where it is mentioned first. */
  function FirstMentions(s: seq<Key>): seq<Key> {
    if s == [] then []
    else
      var init, last := s[..|s| - 1], s[|s| - 1];
      FirstMentions(init) + if last in init then [] else [last]
  }

  lemma {:induction false} FirstMentionsMembers(s: seq<Key>, k: Key)
    ensures k in FirstMentions(s) <==> k in s
  {
    if s != [] {
      FirstMentionsMembers(s[..|s| - 1], k);
      assert s == s[..|s| - 1] + [s[|s| - 1]];
    }
  }

  /** The dependencies of the listed nodes, node by node, each in insertion order. */
  function Mentioned(g: Edges, nodes: seq<Key>): seq<Key> {
    if nodes == [] then [] else Mentioned(g, nodes[..|nodes| - 1]) + Dependencies(g, nodes[|nodes| - 1])
  }

  lemma MentionOne(s: seq<Key>, d: Key)
    ensures FirstMentions(s + [d]) == FirstMentions(s) + if d in s then [] else [d]
  {
    assert (s + [d])[..|s|] == s;
  }

  lemma MentionNode(g: Edges, start: Key, nodes: seq<Key>, node: Key)
    ensures [start] + Mentioned(g, nodes + [node]) == [start] + Mentioned(g, nodes) + Dependencies(g, node)
  {
    assert (nodes + [node])[..|nodes|] == nodes;
  }

  /** What `reachable` promises of the order it returns. */
  ghost predicate IsBreadthFirst(g: Edges, start: Key, order: seq<Key>) {
    && order != [] && order[0] == start
    && NoDuplicates(order)
    && (forall n :: n in order <==> Reaches(g, start, n))
    && ByDistance(g, start, order)
    && order == FirstMentions([start] + Mentioned(g, order))
  }

  // ----- one turn of the queue -----

  /** Every listed node has been met within the bound. */
  ghost predicate MetAll(line: seq<Key>, dist: seq<nat>, nodes: seq<Key>, bound: nat)
    requires |dist| == |line|
  {
    forall d :: d in nodes ==> MetWithin(line, dist, d, bound)
  }

  ghost predicate SeenIs(seen: set<Key>, line: seq<Key>) {
    forall n :: n in seen <==> n in line
  }

  ghost predicate Known(g: Edges, start: Key, line: seq<Key>) {
    forall n :: n in line ==> n in g || n == start
  }

  lemma SeenMore(g: Edges, start: Key, seen: set<Key>, line: seq<Key>, d: Key)
    requires SeenIs(seen, line) && Known(g, start, line) && d in g
    ensures d in seen <==> d in line
    ensures SeenIs(seen + {d}, line + [d]) && Known(g, start, line + [d])
  {
  }

  lemma TargetInGraph(g: Edges, node: Key, j: nat)
    requires WellFormed(g) && j < |Dependencies(g, node)|
    ensures Dependencies(g, node)[j] in g && HasEdge(g, node, Dependencies(g, node)[j])
  {
  }

  lemma MentionTarget(mentioned: seq<Key>, targets: seq<Key>, j: nat)
    requires j < |targets|
    ensures var before := FirstMentions(mentioned + targets[..j]);
            FirstMentions(mentioned + targets[..j + 1]) == before + if targets[j] in before then [] else [targets[j]]
  {
    MentionOne(mentioned + targets[..j], targets[j]);
    FirstMentionsMembers(mentioned + targets[..j], targets[j]);
    assert mentioned + targets[..j] + [targets[j]] == mentioned + targets[..j + 1];
  }

  lemma Joined(a: seq<Key>, b: seq<Key>, d: Key)
    ensures a + (b + [d]) == a + b + [d]
  {
  }

  lemma MetAllOne(line: seq<Key>, dist: seq<nat>, targets: seq<Key>, j: nat, bound: nat)
    requires |dist| == |line| && j < |targets|
    requires MetAll(line, dist, targets[..j], bound) && MetWithin(line, dist, targets[j], bound)
    ensures MetAll(line, dist, targets[..j + 1], bound)
  {
    assert targets[..j + 1] == targets[..j] + [targets[j]];
  }

  lemma MetAllGrows(line: seq<Key>, dist: seq<nat>, targets: seq<Key>, j: nat, bound: nat)
    requires |dist| == |line| && j < |targets| && MetAll(line, dist, targets[..j], bound)
    requires MetWithin(line + [targets[j]], dist + [bound], targets[j], bound)
    ensures MetAll(line + [targets[j]], dist + [bound], targets[..j + 1], bound)
  {
    forall d | d in targets[..j] ensures MetWithin(line + [targets[j]], dist + [bound], d, bound) {
      MetStays(line, dist, d, bound, targets[j], bound);
    }
    MetAllOne(line + [targets[j]], dist + [bound], targets, j, bound);
  }

  lemma AllMet(g: Edges, line: seq<Key>, dist: seq<nat>, k: nat, targets: seq<Key>)
    requires k < |line| == |dist| && targets == Dependencies(g, line[k]) &&
             MetAll(line, dist, targets[..|targets|], dist[k] + 1)
    ensures targets[..|targets|] == targets
    ensures forall d :: HasEdge(g, line[k], d) ==> MetWithin(line, dist, d, dist[k] + 1)
  {
    assert targets[..|targets|] == targets;
  }

  function Behind(dist: seq<nat>, k: nat): nat {
    if k < |dist| then dist[k] + 1 else 0
  }

  /** Partway through the dependencies of the head: the first `j` have been met and queued. */
  ghost predicate Turn(
    g: Edges, start: Key, k: nat, node: Key, mentioned: seq<Key>, targets: seq<Key>, j: nat, line: seq<Key>,
      dist: seq<nat>, seen: set<Key>) {
    && j <= |targets| && line == FirstMentions(mentioned + targets[..j])
    && Front(g, start, line, k, dist) && k < |line| && line[k] == node
    && SeenIs(seen, line) && Known(g, start, line)
    && MetAll(line, dist, targets[..j], Behind(dist, k))
  }

  lemma NothingAdded(line: seq<Key>, queue: seq<Key>)
    ensures line + [] == line && queue + [] == queue
  {
  }

  lemma TurnBegins(
    g: Edges, start: Key, k: nat, node: Key, mentioned: seq<Key>, targets: seq<Key>, line: seq<Key>, dist: seq<nat>,
      seen: set<Key>)
    requires Front(g, start, line, k, dist) && k < |line| && line[k] == node && SeenIs(seen, line) &&
             Known(g, start, line)
    requires line == FirstMentions(mentioned)
    ensures Turn(g, start, k, node, mentioned, targets, 0, line, dist, seen)
  {
    hide FirstMentions, SeenIs, Known;
    assert mentioned + targets[..0] == mentioned;
  }

  lemma TurnNext(
    g: Edges, start: Key, k: nat, node: Key, mentioned: seq<Key>, targets: seq<Key>, j: nat, line: seq<Key>,
      dist: seq<nat>, seen: set<Key>)
    requires WellFormed(g) && targets == Dependencies(g, node) && j < |targets|
    requires Turn(g, start, k, node, mentioned, targets, j, line, dist, seen)
    ensures targets[j] in seen ==> Turn(g, start, k, node, mentioned, targets, j + 1, line, dist, seen)
    ensures targets[j] !in seen ==>
      Turn(g, start, k, node, mentioned, targets, j + 1, line + [targets[j]], dist + [Behind(dist, k)],
        seen + {targets[j]})
  {
    var d := targets[j];
    TargetInGraph(g, node, j);
    MentionTarget(mentioned, targets, j);
    SeenMore(g, start, seen, line, d);
    hide FirstMentions, SeenIs, Known, MetAll;
    FrontLengths(g, start, line, k, dist);
    if d in seen {
      AlreadyMet(g, start, line, k, dist, d);
      MetAllOne(line, dist, targets, j, Behind(dist, k));
    } else {
      FrontGrows(g, start, line, k, dist, d);
      MetAllGrows(line, dist, targets, j, Behind(dist, k));
    }
    hide Front;
  }

  lemma FrontLengths(g: Edges, start: Key, line: seq<Key>, k: nat, dist: seq<nat>)
    requires Front(g, start, line, k, dist)
    ensures |line| == |dist|
  {
  }

  lemma TurnEnds(
    g: Edges, start: Key, k: nat, node: Key, mentioned: seq<Key>, targets: seq<Key>, line: seq<Key>, dist: seq<nat>,
      seen: set<Key>)
    requires targets == Dependencies(g, node) &&
             Turn(g, start, k, node, mentioned, targets, |targets|, line, dist, seen)
    ensures Front(g, start, line, k + 1, dist) && SeenIs(seen, line) && Known(g, start, line)
    ensures line == FirstMentions(mentioned + targets)
  {
    hide FirstMentions, SeenIs, Known;
    AllMet(g, line, dist, k, targets);
    FrontAdvances(g, start, line, k, dist);
  }

  /** Queue the dependencies of the head of the queue that were not met before. */
  method Expand(
    g: Edges, ghost start: Key, ghost line: seq<Key>, ghost k: nat, ghost dist: seq<nat>, node: Key, queue: seq<Key>,
    seen: set<Key>)
    returns (queue': seq<Key>, seen': set<Key>, ghost added: seq<Key>, ghost dist': seq<nat>)
    requires WellFormed(g) && Front(g, start, line, k, dist) && k < |line| && line[k] == node
    requires SeenIs(seen, line) && Known(g, start, line)
    requires line == FirstMentions([start] + Mentioned(g, line[..k]))
    ensures queue' == queue + added && Front(g, start, line + added, k + 1, dist')
    ensures line + added == FirstMentions([start] + Mentioned(g, line[..k]) + Dependencies(g, node))
    ensures SeenIs(seen', line + added) && Known(g, start, line + added)
  {
    queue', seen', added, dist' := queue, seen, [], dist;
    var targets := Dependencies(g, node);
    ghost var line', mentioned := line, [start] + Mentioned(g, line[..k]);
    TurnBegins(g, start, k, node, mentioned, targets, line, dist, seen);
    NothingAdded(line, queue);
    hide Turn, FirstMentions, Mentioned, Front, SeenIs, Known;
    for j := 0 to |targets|
      invariant Turn(g, start, k, node, mentioned, targets, j, line', dist', seen')
      invariant line' == line + added && queue' == queue + added
    {
      var dependency := targets[j];
      TurnNext(g, start, k, node, mentioned, targets, j, line', dist', seen');
      if dependency !in seen' {
        Joined(line, added, dependency);
        Joined(queue, added, dependency);
        seen' := seen' + {dependency};
        queue' := queue' + [dependency];
        added, line', dist' := added + [dependency], line' + [dependency], dist' + [Behind(dist', k)];
      }
    }
    TurnEnds(g, start, k, node, mentioned, targets, line', dist', seen');
  }

  /** Every node reachable from `start`, breadth first. */
  method ReachableFrom(graph: Graph, start: Key) returns (order: seq<Key>)
    requires graph.Valid()
    ensures IsBreadthFirst(graph.edges, start, order)
  {
    var g := graph.edges;
    var seen, queue := {start}, [start];
    order := [];
    ghost var dist: seq<nat> := [0];
    ghost var line := [start];
    QueueBegins(g, start);
    hide Front, FirstMentions, Mentioned, SeenIs, Known, IsBreadthFirst, Dependencies, Reaches;
    while queue != []
      invariant line == order + queue && Front(g, start, line, |order|, dist)
      invariant line == FirstMentions([start] + Mentioned(g, order))
      invariant SeenIs(seen, line) && Known(g, start, line)
      decreases |g.Keys + {start}| - |order|
    {
      LineIsBounded(g, start, line, |order|, dist);
      Dequeued(order, queue);
      var node := queue[0];
      ghost var before, added := queue, [];
      MentionNode(g, start, order, node);
      queue, seen, added, dist := Expand(g, start, line, |order|, dist, node, queue[1..], seen);
      Requeue(order, before, added);
      line := line + added;
      order := order + [node];
    }
    QueueEnds(g, start, order, queue, dist);
  }

  lemma QueueBegins(g: Edges, start: Key)
    ensures Front(g, start, [start], 0, [0]) && SeenIs({start}, [start]) && Known(g, start, [start])
    ensures [] + [start] == [start] == FirstMentions([start] + Mentioned(g, []))
  {
    assert [start] + Mentioned(g, []) == [] + [start];
    MentionOne([], start);
  }

  lemma LineIsBounded(g: Edges, start: Key, line: seq<Key>, k: nat, dist: seq<nat>)
    requires Front(g, start, line, k, dist) && Known(g, start, line)
    ensures |line| <= |g.Keys + {start}|
  {
    DistinctWithinSet(line, g.Keys + {start});
  }

  lemma Dequeued(order: seq<Key>, queue: seq<Key>)
    requires queue != []
    ensures (order + queue)[..|order|] == order && (order + queue)[|order|] == queue[0]
  {
  }

  lemma FrontStarts(g: Edges, start: Key, line: seq<Key>, dist: seq<nat>)
    requires Front(g, start, line, |line|, dist)
    ensures line != [] && line[0] == start && NoDuplicates(line)
  {
  }

  lemma QueueEnds(g: Edges, start: Key, order: seq<Key>, queue: seq<Key>, dist: seq<nat>)
    requires queue == [] && Front(g, start, order + queue, |order|, dist)
    requires order + queue == FirstMentions([start] + Mentioned(g, order))
    ensures IsBreadthFirst(g, start, order)
  {
    hide Front, FirstMentions, Mentioned, NoDuplicates, ByDistance;
    assert order + queue == order;
    FrontIsComplete(g, start, order, dist);
    FrontStarts(g, start, order, dist);
  }
}

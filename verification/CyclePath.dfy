/** Finding a simple cycle through a given node without leaving a given set. */
module CyclePath {
  import opened GraphModel
  import opened KeyOrder
  import opened Graphs
  import opened Toposort
  import opened WalkOrder
  import opened Wrappers

  /** A cycle through `start` whose other nodes all lie in `within`. */
  ghost predicate CycleInside(g: Edges, start: Key, within: set<Key>) {
    exists p :: PathFromTo(g, p, start, start) && |p| >= 2 && forall k :: 0 < k < |p| - 1 ==> p[k] in within
  }

  /** `path` lists the other nodes of a simple cycle through `start`. */
  ghost predicate IsCyclePath(g: Edges, start: Key, within: set<Key>, path: seq<Key>) {
    && PathFromTo(g, [start] + path + [start], start, start)
    && NoDuplicates([start] + path)
    && forall n :: n in path ==> n in within
  }

  /** The search has left `n` behind: nothing it depends on is still open. */
  ghost predicate DeadEnd(g: Edges, start: Key, within: set<Key>, visited: set<Key>, n: Key) {
    forall d :: HasEdge(g, n, d) ==> d != start && (d in within ==> d in visited)
  }

  lemma {:induction false} CycleStaysVisited(
    g: Edges, start: Key, within: set<Key>, visited: set<Key>, p: seq<Key>, k: nat)
    requires start in visited && forall n :: n in visited ==> DeadEnd(g, start, within, visited, n)
    requires PathFromTo(g, p, start, start) && forall k :: 0 < k < |p| - 1 ==> p[k] in within
    requires k < |p| - 1
    ensures p[k] in visited
  {
    if k > 0 {
      CycleStaysVisited(g, start, within, visited, p, k - 1);
      assert HasEdge(g, p[k - 1], p[k - 1 + 1]);
    }
  }

  /** Once everything visited is a dead end there is no cycle to find. */
  lemma NoCycleLeft(g: Edges, start: Key, within: set<Key>, visited: set<Key>)
    requires start in visited && forall n :: n in visited ==> DeadEnd(g, start, within, visited, n)
    ensures !CycleInside(g, start, within)
  {
    if CycleInside(g, start, within) {
      var p :| PathFromTo(g, p, start, start) && |p| >= 2 && forall k :: 0 < k < |p| - 1 ==> p[k] in within;
      assert HasEdge(g, p[|p| - 2], p[|p| - 2 + 1]);
      CycleStaysVisited(g, start, within, visited, p, |p| - 2);
      assert false;
    }
  }

  /** The trail from `start` is a simple path, and everything else visited is a dead end. */
  ghost predicate OnTrail(g: Edges, start: Key, within: set<Key>, visited: set<Key>, trail: seq<Key>) {
    && trail != [] && trail[0] == start && IsPath(g, trail) && NoDuplicates(trail)
    && (forall n :: n in trail ==> n in visited)
    && (forall i :: 0 < i < |trail| ==> trail[i] in within)
    && (forall n :: n in visited && n !in trail ==> DeadEnd(g, start, within, visited, n))
  }

  lemma TrailExtends(g: Edges, start: Key, within: set<Key>, visited: set<Key>, trail: seq<Key>, d: Key)
    requires OnTrail(g, start, within, visited, trail)
    requires HasEdge(g, trail[|trail| - 1], d) && d in within && d !in visited
    ensures OnTrail(g, start, within, visited + {d}, trail + [d])
  {
    var trail' := trail + [d];
    forall n | n in visited + {d} && n !in trail' ensures DeadEnd(g, start, within, visited + {d}, n) {
      assert d in trail';
      assert n !in trail;
    }
  }

  /** Backtracking off the last node, which has become a dead end. */
  lemma TrailBacktracks(g: Edges, start: Key, within: set<Key>, visited: set<Key>, trail: seq<Key>)
    requires OnTrail(g, start, within, visited, trail) && |trail| >= 2
    requires DeadEnd(g, start, within, visited, trail[|trail| - 1])
    ensures OnTrail(g, start, within, visited, trail[..|trail| - 1])
  {
    var init, last := trail[..|trail| - 1], trail[|trail| - 1];
    assert trail == init + [last];
    forall i | 0 <= i < |init| - 1 ensures HasEdge(g, init[i], init[i + 1]) {
      assert HasEdge(g, trail[i], trail[i + 1]);
    }
  }

  lemma TrailCloses(g: Edges, start: Key, within: set<Key>, visited: set<Key>, path: seq<Key>)
    requires OnTrail(g, start, within, visited, [start] + path)
    requires HasEdge(g, ([start] + path)[|path|], start)
    ensures IsCyclePath(g, start, within, path)
  {
    var trail := [start] + path;
    var p := trail + [start];
    forall i | 0 <= i < |p| - 1 ensures HasEdge(g, p[i], p[i + 1]) {
      if i < |trail| - 1 {
        assert HasEdge(g, trail[i], trail[i + 1]);
      }
    }
    forall n | n in path ensures n in within {
      var i :| 0 <= i < |path| && path[i] == n;
      assert trail[i + 1] == n;
    }
  }

  // ----- which cycle is found -----

  function Round(start: Key, path: seq<Key>): seq<Key> {
    [start] + path + [start]
  }

  /** No other simple cycle through `start` comes before this one in the order of the walk. */
  ghost predicate IsFirstCycle(g: Edges, start: Key, within: set<Key>, path: seq<Key>) {
    forall other :: IsCyclePath(g, start, within, other) && other != path ==>
      Before(g, Round(start, path), Round(start, other))
  }

  /**
   When `node` was reached over `below`, what the walk turns to before it was
   neither `start` nor open, and what had been seen leads to nothing else.
   */
  ghost predicate TriedBefore(g: Edges, start: Key, within: set<Key>, below: seq<Key>, node: Key, seen: set<Key>) {
    && (forall x :: Precedes(g, below, x, node) ==> x != start && (x in within ==> x in seen))
    && (forall x :: x in seen && x !in below ==> DeadEnd(g, start, within, seen, x))
  }

  /** The same at every node of the walk behind its start. */
  ghost predicate Tried(g: Edges, start: Key, within: set<Key>, walk: seq<Key>, layers: seq<set<Key>>) {
    |walk| == |layers| + 1 &&
    forall k :: 0 < k < |walk| ==> TriedBefore(g, start, within, walk[..k], walk[k], layers[k - 1])
  }

  lemma TriedMore(
    g: Edges, start: Key, within: set<Key>, walk: seq<Key>, layers: seq<set<Key>>, node: Key, seen: set<Key>)
    requires Tried(g, start, within, walk, layers) && TriedBefore(g, start, within, walk, node, seen)
    ensures Tried(g, start, within, walk + [node], layers + [seen])
  {
    hide TriedBefore;
    var more, all := walk + [node], layers + [seen];
    forall k | 0 < k < |more| ensures TriedBefore(g, start, within, more[..k], more[k], all[k - 1]) {
      assert more[..k] == walk[..k];
      if k == |walk| {
        assert walk[..k] == walk;
      }
    }
  }

  lemma TriedLess(g: Edges, start: Key, within: set<Key>, walk: seq<Key>, layers: seq<set<Key>>)
    requires Tried(g, start, within, walk, layers) && |layers| > 0
    ensures Tried(g, start, within, walk[..|walk| - 1], layers[..|layers| - 1])
  {
    hide TriedBefore;
    var less := walk[..|walk| - 1];
    forall k | 0 < k < |less| ensures TriedBefore(g, start, within, less[..k], less[k], layers[..|layers| - 1][k - 1]) {
      assert less[..k] == walk[..k];
    }
  }

  /** A simple cycle that has turned to something tried before stays there and never closes. */
  lemma {:induction false} StaysTried(
    g: Edges, start: Key, within: set<Key>, node: Key, seen: set<Key>, other: seq<Key>, k: nat, m: nat)
    requires IsCyclePath(g, start, within, other) && 0 < k <= m <= |other|
    requires TriedBefore(g, start, within, Round(start, other)[..k], node, seen) && Round(start, other)[k] in seen
    ensures Round(start, other)[m] in seen && DeadEnd(g, start, within, seen, Round(start, other)[m])
  {
    hide Precedes;
    var q := Round(start, other);
    if m > k {
      StaysTried(g, start, within, node, seen, other, k, m - 1);
      assert HasEdge(g, q[m - 1], q[m - 1 + 1]);
      assert q[m] == other[m - 1] && other[m - 1] in other;
    }
    NotMetBefore(start, other, k, m);
  }

  lemma NotMetBefore(start: Key, other: seq<Key>, k: nat, m: nat)
    requires NoDuplicates([start] + other) && k <= m <= |other|
    ensures Round(start, other)[m] !in Round(start, other)[..k]
  {
    var q := Round(start, other);
    forall i | 0 <= i < k ensures q[..k][i] != q[m] {
      assert q[i] == ([start] + other)[i] && q[m] == ([start] + other)[m];
    }
  }

  lemma RoundsPart(start: Key, path: seq<Key>, other: seq<Key>) returns (m: nat)
    requires NoDuplicates([start] + path) && NoDuplicates([start] + other) && path != other
    ensures var p, q := Round(start, path), Round(start, other);
            0 < m < |p| && m < |q| && p[..m] == q[..m] && p[m] != q[m]
  {
    var p, q := Round(start, path), Round(start, other);
    BackIsSimple(start, path);
    BackIsSimple(start, other);
    var a, b := path + [start], other + [start];
    assert a[..|path|] == path && b[..|other|] == other;
    assert a[..0] == b[..0];
    var k := Part(a, b, 0);
    m := k + 1;
    assert p == [start] + a && q == [start] + b;
    assert p[..m] == [start] + a[..k] && q[..m] == [start] + b[..k];
  }

  lemma BackIsSimple(start: Key, path: seq<Key>)
    requires NoDuplicates([start] + path)
    ensures NoDuplicates(path + [start])
  {
    var p := [start] + path;
    forall i, j | 0 <= i < j < |path + [start]| ensures (path + [start])[i] != (path + [start])[j] {
      assert p[i + 1] == path[i];
      if j < |path| {
        assert p[j + 1] == path[j];
      } else {
        assert p[0] == start;
      }
    }
  }

  /** The walk has closed, and every other cycle comes after it. */
  lemma RoundBeats(
    g: Edges, start: Key, within: set<Key>, path: seq<Key>, layers: seq<set<Key>>, other: seq<Key>)
    requires IsCyclePath(g, start, within, path) && Tried(g, start, within, Round(start, path), layers)
    requires IsCyclePath(g, start, within, other) && other != path
    ensures Before(g, Round(start, path), Round(start, other))
  {
    hide TriedBefore, Precedes, DeadEnd;
    var p, q := Round(start, path), Round(start, other);
    var m := RoundsPart(start, path, other);
    WaysCompare(g, p, q, m);
    assert TriedBefore(g, start, within, p[..m], p[m], layers[m - 1]);
    TurnedBack(g, start, within, p[m], layers[m - 1], other, m);
    assert PartsAt(g, p, q, m);
  }

  /** A simple cycle does not part from the walk by turning to something tried before. */
  lemma TurnedBack(
    g: Edges, start: Key, within: set<Key>, node: Key, seen: set<Key>, other: seq<Key>, m: nat)
    requires IsCyclePath(g, start, within, other) && 0 < m <= |other| + 1
    requires TriedBefore(g, start, within, Round(start, other)[..m], node, seen)
    ensures !Precedes(g, Round(start, other)[..m], Round(start, other)[m], node)
  {
    hide Precedes, DeadEnd;
    var q := Round(start, other);
    if Precedes(g, q[..m], q[m], node) {
      assert q[m] != start;
      assert q[m] == other[m - 1] && other[m - 1] in other;
      StaysTried(g, start, within, node, seen, other, m, |other|);
      assert HasEdge(g, q[|other|], q[|other| + 1]);
      NeverBack(g, start, within, seen, q[|other|]);
    }
  }

  lemma NeverBack(g: Edges, start: Key, within: set<Key>, seen: set<Key>, n: Key)
    requires DeadEnd(g, start, within, seen, n)
    ensures !HasEdge(g, n, start)
  {
  }

  lemma WalkIsFirst(g: Edges, start: Key, within: set<Key>, path: seq<Key>, layers: seq<set<Key>>)
    requires IsCyclePath(g, start, within, path) && Tried(g, start, within, Round(start, path), layers)
    ensures IsFirstCycle(g, start, within, path)
  {
    hide IsCyclePath, Tried, Before;
    forall other | IsCyclePath(g, start, within, other) && other != path
      ensures Before(g, Round(start, path), Round(start, other))
    {
      RoundBeats(g, start, within, path, layers, other);
    }
  }

  /** The targets before the `i`-th have been tried. */
  lemma TargetTried(
    g: Edges, start: Key, within: set<Key>, visited: set<Key>, trail: seq<Key>, top: Key, i: nat)
    requires OnTrail(g, start, within, visited, trail) && top == trail[|trail| - 1] && i < |Dependencies(g, top)|
    requires forall d :: d in Dependencies(g, top)[..i] ==> d != start && (d in within ==> d in visited)
    ensures TriedBefore(g, start, within, trail, Dependencies(g, top)[i], visited)
  {
    hide DeadEnd;
    forall x | Precedes(g, trail, x, Dependencies(g, top)[i]) ensures x != start && (x in within ==> x in visited) {
      SoonerIsListed(g, top, x, i);
    }
  }

  class Search {
    const graph: Edges
    const start: Key
    const within: set<Key>
    var path: seq<Key>
    var visited: set<Key>
    /** What had been visited when each node of the path was. */
    ghost var layers: seq<set<Key>>

    constructor (g: Edges, start: Key, within: set<Key>)
      ensures this.graph == g && this.start == start && this.within == within
      ensures path == [] && visited == {start} && Valid()
    {
      this.graph, this.start, this.within := g, start, within;
      path, visited := [], {start};
      layers := [];
    }

    ghost predicate Valid()
      reads this
    {
      && OnTrail(graph, start, within, visited, [start] + path)
      && Tried(graph, start, within, [start] + path, layers)
    }

    /** Take a node onto the path. */
    method Enter(dependency: Key)
      requires Valid() && HasEdge(graph, ([start] + path)[|path|], dependency)
      requires dependency in within && dependency !in visited
      requires TriedBefore(graph, start, within, [start] + path, dependency, visited)
      modifies this
      ensures Valid() && path == old(path) + [dependency] && visited == old(visited) + {dependency}
    {
      hide OnTrail, Tried, TriedBefore;
      TrailExtends(graph, start, within, visited, [start] + path, dependency);
      TriedMore(graph, start, within, [start] + path, layers, dependency, visited);
      assert [start] + (path + [dependency]) == [start] + path + [dependency];
      layers := layers + [visited];
      visited := visited + {dependency};
      path := path + [dependency];
    }

    /** Take a dead end off the path. */
    method Leave()
      requires Valid() && path != [] && DeadEnd(graph, start, within, visited, ([start] + path)[|path|])
      modifies this
      ensures Valid() && path == old(path)[..|old(path)| - 1] && visited == old(visited)
    {
      hide OnTrail, TriedBefore, DeadEnd;
      TrailBacktracks(graph, start, within, visited, [start] + path);
      TriedLess(graph, start, within, [start] + path, layers);
      assert ([start] + path)[..|path|] == [start] + path[..|path| - 1];
      path := path[..|path| - 1];
      layers := layers[..|layers| - 1];
    }

    /** Whether some unvisited way on from `current` returns to `start`. */
    method Walk(current: Key) returns (returned: bool)
      requires Valid() && current == ([start] + path)[|path|]
      modifies this
      ensures Valid() && old(visited) <= visited
      ensures returned ==> IsCyclePath(graph, start, within, path) && IsFirstCycle(graph, start, within, path)
      ensures !returned ==> path == old(path) && DeadEnd(graph, start, within, visited, current)
      decreases within - visited
    {
      hide OnTrail, Tried, TriedBefore, IsCyclePath, IsFirstCycle;
      var targets := Dependencies(graph, current);
      for i := 0 to |targets|
        invariant Valid() && path == old(path) && old(visited) <= visited
        invariant forall d :: d in targets[..i] ==> d != start && (d in within ==> d in visited)
      {
        var dependency := targets[i];
        assert HasEdge(graph, current, dependency) && targets[..i + 1] == targets[..i] + [dependency];
        TargetTried(graph, start, within, visited, [start] + path, current, i);
        if dependency == start {
          TrailCloses(graph, start, within, visited, path);
          TriedMore(graph, start, within, [start] + path, layers, start, visited);
          WalkIsFirst(graph, start, within, path, layers + [visited]);
          return true;
        }
        if dependency !in within || dependency in visited {
          continue;
        }
        Enter(dependency);
        assert dependency in old(within - visited) && dependency !in within - visited;
        var found := Walk(dependency);
        if found {
          return true;
        }
        Leave();
      }
      assert targets[..|targets|] == targets;
      returned := false;
    }
  }

  /**
   The other nodes of a cycle through `start`, or none when there is no such
   cycle. Of all such simple cycles it is the first one the walk can take.
   */
  method CyclePathOf(graph: Graph, start: Key, within: set<Key>) returns (result: Option<seq<Key>>)
    ensures result.Some? <==> CycleInside(graph.edges, start, within)
    ensures result.Some? ==> IsCyclePath(graph.edges, start, within, result.value)
    ensures result.Some? ==> IsFirstCycle(graph.edges, start, within, result.value)
  {
    var search := new Search(graph.edges, start, within);
    var returned := search.Walk(start);
    if returned {
      CyclePathIsCycle(graph.edges, start, within, search.path);
      result := Some(search.path);
    } else {
      NoCycleLeft(graph.edges, start, within, search.visited);
      result := None;
    }
  }

  lemma CyclePathIsCycle(g: Edges, start: Key, within: set<Key>, path: seq<Key>)
    requires IsCyclePath(g, start, within, path)
    ensures CycleInside(g, start, within)
  {
    var p := [start] + path + [start];
    forall k | 0 < k < |p| - 1 ensures p[k] in within {
      assert p[k] == path[k - 1];
    }
  }

  /** Inside the stuck nodes the search finds exactly the cycles of the whole graph. */
  lemma StuckSetSuffices(g: Edges, order: Order, start: Key)
    requires WellFormed(g) && IsExact(g, order)
    ensures CycleInside(g, start, Members(order.stuck)) <==> OnCycle(g, start)
  {
    if OnCycle(g, start) {
      var p :| PathFromTo(g, p, start, start) && |p| >= 2;
      forall k | 0 < k < |p| - 1 ensures p[k] in Members(order.stuck) {
        CycleMembersOnCycle(g, p, k);
        CycleReachableIsCyclic(g, p[k]);
        assert HasEdge(g, p[k], p[k + 1]);
        assert p[k] in order.stuck;
      }
    }
  }
}

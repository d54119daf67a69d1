/** The edges a depth-first walk meets again on its own stack, and why cutting them is enough and not too much. */
module BackEdges {
  import opened GraphModel
  import opened KeyOrder
  import opened Graphs
  import opened Toposort
  import opened WalkOrder
  import opened WalkTrace

  /** The targets `from` keeps once the edges in `cut` are deleted. */
  function Kept(from: Key, targets: seq<Key>, cut: seq<Dependency>): (r: seq<Key>)
    ensures forall d :: d in r <==> d in targets && Dependency(from, d) !in cut
  {
    if targets == [] then []
    else (if Dependency(from, targets[0]) in cut then [] else [targets[0]]) + Kept(from, targets[1..], cut)
  }

  /** The graph with the edges in `cut` deleted. */
  function Without(g: Edges, cut: seq<Dependency>): Edges {
    map n | n in g :: Kept(n, g[n], cut)
  }

  /** `e` is an edge of the graph that lies on a cycle. */
  ghost predicate ClosesCycle(g: Edges, e: Dependency) {
    HasEdge(g, e.from, e.to) && Reaches(g, e.to, e.from)
  }

  /** Of the edges of the listed nodes, those found are the ones that do not lead to a node listed earlier. */
  ghost predicate FinishedInOrder(g: Edges, order: seq<Key>, found: seq<Dependency>) {
    forall i, d :: 0 <= i < |order| && HasEdge(g, order[i], d) ==>
      (Dependency(order[i], d) in found <==> d !in order[..i])
  }

  /** The edges found are exactly those that run against one order of all the nodes. */
  ghost predicate AgainstOrder(g: Edges, order: seq<Key>, found: seq<Dependency>) {
    NoDuplicates(order) && (forall n :: n in order <==> n in g) && FinishedInOrder(g, order, found)
  }

  /** Putting any one edge back closes a cycle among the edges that were kept. */
  ghost predicate EachNeeded(g: Edges, found: seq<Dependency>) {
    forall e :: e in found ==> Reaches(Without(g, found), e.to, e.from)
  }

  /** What `back_edges` promises: cycle-closing edges, once each, enough of them, and none too many. */
  ghost predicate IsCut(g: Edges, found: seq<Dependency>) {
    && (forall e :: e in found ==> ClosesCycle(g, e))
    && NoDuplicates(found)
    && Acyclic(Without(g, found))
    && EachNeeded(g, found)
    && exists order :: AgainstOrder(g, order, found)
  }

  lemma FinishedSnoc(g: Edges, order: seq<Key>, found: seq<Dependency>, node: Key)
    requires FinishedInOrder(g, order, found)
    requires forall d :: HasEdge(g, node, d) ==> (Dependency(node, d) in found <==> d !in order)
    ensures FinishedInOrder(g, order + [node], found)
  {
    var order' := order + [node];
    forall i, d | 0 <= i < |order'| && HasEdge(g, order'[i], d)
      ensures Dependency(order'[i], d) in found <==> d !in order'[..i]
    {
      assert order'[..i] == order[..i];
      if i == |order| {
        assert order[..i] == order;
      }
    }
  }

  /** An edge back into the search stack closes a cycle. */
  lemma StackLeadsBack(g: Edges, stack: seq<Key>, d: Key)
    requires IsPath(g, stack) && d in stack && HasEdge(g, stack[|stack| - 1], d)
    ensures ClosesCycle(g, Dependency(stack[|stack| - 1], d))
  {
    var j :| 0 <= j < |stack| && stack[j] == d;
    var tail := stack[j..];
    forall i | 0 <= i < |tail| - 1 ensures HasEdge(g, tail[i], tail[i + 1]) {
      assert HasEdge(g, stack[j + i], stack[j + i + 1]);
    }
    assert PathFromTo(g, tail, d, stack[|stack| - 1]);
  }

  lemma CutLeavesAcyclic(g: Edges, order: seq<Key>, found: seq<Dependency>)
    requires NoDuplicates(order) && FinishedInOrder(g, order, found)
    requires forall n :: n in g ==> n in order
    ensures Acyclic(Without(g, found))
  {
    var h := Without(g, found);
    forall i, d | 0 <= i < |order| && HasEdge(h, order[i], d) ensures d in order[..i] {
      assert HasEdge(g, order[i], d);
    }
    forall n ensures !OnCycle(h, n) {
      if OnCycle(h, n) {
        var p :| PathFromTo(h, p, n, n) && |p| >= 2;
        assert HasEdge(h, p[0], p[0 + 1]);
        assert n in order;
        OrderedReachesNoCycle(h, order, n);
        CycleReachableIsCyclic(h, n);
        assert false;
      }
    }
  }

  /** An edge found from an open node leads to that node or one below it on the stack. */
  ghost predicate LeadsDown(stack: seq<Key>, found: seq<Dependency>) {
    forall i, e :: 0 <= i < |stack| && e in found && e.from == stack[i] ==> e.to in stack[..i + 1]
  }

  /**
   The search between two steps: the stack is a path of open nodes, `order`
   lists the closed ones, and every edge found so far closes a cycle.
   */
  ghost predicate Consistent(g: Edges, stack: seq<Key>, order: seq<Key>, found: seq<Dependency>) {
    && NoDuplicates(stack) && NoDuplicates(order) && NoDuplicates(found)
    && (stack != [] ==> IsPath(g, stack))
    && (forall n :: n in stack ==> n in g && n !in order)
    && (forall n :: n in order ==> n in g)
    && FinishedInOrder(g, order, found)
    && (forall e :: e in found ==> ClosesCycle(g, e) && (e.from in stack || e.from in order))
    && LeadsDown(stack, found)
  }

  lemma Opened(g: Edges, stack: seq<Key>, order: seq<Key>, found: seq<Dependency>, node: Key)
    requires Consistent(g, stack, order, found)
    requires node in g && node !in stack && node !in order
    requires stack != [] ==> HasEdge(g, stack[|stack| - 1], node)
    ensures Consistent(g, stack + [node], order, found) && forall e :: e in found ==> e.from != node
  {
    LeadsDownMore(stack, found, node);
    hide LeadsDown;
  }

  lemma LeadsDownMore(stack: seq<Key>, found: seq<Dependency>, node: Key)
    requires LeadsDown(stack, found) && forall e :: e in found ==> e.from != node
    ensures LeadsDown(stack + [node], found)
  {
    forall i, e | 0 <= i < |stack| && e in found && e.from == stack[i] ensures e.to in (stack + [node])[..i + 1] {
      assert (stack + [node])[..i + 1] == stack[..i + 1];
    }
  }

  lemma LeadsDownLess(stack: seq<Key>, found: seq<Dependency>, node: Key)
    requires LeadsDown(stack + [node], found)
    ensures LeadsDown(stack, found)
    ensures forall e :: e in found && e.from == node ==> e.to in stack + [node]
  {
    var open := stack + [node];
    forall i, e | 0 <= i < |stack| && e in found && e.from == stack[i] ensures e.to in stack[..i + 1] {
      assert open[i] == stack[i] && open[..i + 1] == stack[..i + 1];
    }
    forall e | e in found && e.from == node ensures e.to in open {
      assert open[|stack|] == node && open[..|stack| + 1] == open;
    }
  }

  lemma LeadsDownFound(stack: seq<Key>, found: seq<Dependency>, d: Key)
    requires LeadsDown(stack, found) && NoDuplicates(stack) && stack != [] && d in stack
    ensures LeadsDown(stack, found + [Dependency(stack[|stack| - 1], d)])
  {
    assert stack[..|stack|] == stack;
  }

  lemma FoundBack(g: Edges, stack: seq<Key>, order: seq<Key>, found: seq<Dependency>, d: Key)
    requires Consistent(g, stack, order, found) && stack != []
    requires d in stack && HasEdge(g, stack[|stack| - 1], d) && Dependency(stack[|stack| - 1], d) !in found
    ensures Consistent(g, stack, order, found + [Dependency(stack[|stack| - 1], d)])
  {
    StackLeadsBack(g, stack, d);
    LeadsDownFound(stack, found, d);
    assert forall n :: n in order ==> n != stack[|stack| - 1];
    FoundElsewhere(g, order, found, Dependency(stack[|stack| - 1], d));
    hide LeadsDown, FinishedInOrder;
  }

  lemma FoundElsewhere(g: Edges, order: seq<Key>, found: seq<Dependency>, e: Dependency)
    requires FinishedInOrder(g, order, found) && e.from !in order
    ensures FinishedInOrder(g, order, found + [e])
  {
  }

  lemma TopOff(g: Edges, stack: seq<Key>, node: Key)
    requires NoDuplicates(stack + [node]) && IsPath(g, stack + [node])
    ensures NoDuplicates(stack) && node !in stack && (stack != [] ==> IsPath(g, stack))
  {
    var open := stack + [node];
    forall i | 0 <= i < |stack| ensures stack[i] != node {
      assert open[i] != open[|stack|];
    }
    forall i, j | 0 <= i < j < |stack| ensures stack[i] != stack[j] {
      assert open[i] != open[j];
    }
    forall i | 0 <= i < |stack| - 1 ensures HasEdge(g, stack[i], stack[i + 1]) {
      assert HasEdge(g, open[i], open[i + 1]);
    }
  }

  lemma ListedOnce(order: seq<Key>, node: Key)
    requires NoDuplicates(order) && node !in order
    ensures NoDuplicates(order + [node])
  {
  }

  lemma FinishedNode(g: Edges, stack: seq<Key>, order: seq<Key>, found: seq<Dependency>, node: Key)
    requires Consistent(g, stack + [node], order, found)
    requires forall d :: HasEdge(g, node, d) ==> d in order || Dependency(node, d) in found
    ensures Consistent(g, stack, order + [node], found)
  {
    hide LeadsDown, FinishedInOrder, NoDuplicates, IsPath;
    LeadsDownLess(stack, found, node);
    TopOff(g, stack, node);
    assert node in stack + [node] && forall n :: n in stack ==> n in stack + [node];
    FinishedSnoc(g, order, found, node);
    ListedOnce(order, node);
  }

  lemma TargetIsNew(g: Edges, node: Key, i: nat)
    requires WellFormed(g) && i < |Dependencies(g, node)|
    ensures var targets := Dependencies(g, node);
            && targets[i] in g && HasEdge(g, node, targets[i])
            && targets[i] !in targets[..i] && targets[..i + 1] == targets[..i] + [targets[i]]
  {
  }

  // ----- the edges the walk follows -----

  type Tree = set<Dependency>

  ghost predicate InTree(tree: Tree, p: seq<Key>) {
    forall i :: 0 <= i < |p| - 1 ==> Dependency(p[i], p[i + 1]) in tree
  }

  ghost predicate TreeReaches(tree: Tree, a: Key, b: Key) {
    exists p :: |p| > 0 && p[0] == a && p[|p| - 1] == b && InTree(tree, p)
  }

  /**
   The edges followed are never edges found. The stack is made of them, and
   they lead from the target of every edge found back to its source.
   */
  ghost predicate Followed(g: Edges, tree: Tree, stack: seq<Key>, order: seq<Key>, found: seq<Dependency>) {
    && (forall e :: e in tree ==> HasEdge(g, e.from, e.to) && e !in found && (e.from in stack || e.from in order))
    && InTree(tree, stack)
    && forall e :: e in found ==> TreeReaches(tree, e.to, e.from)
  }

  lemma FollowedOpened(g: Edges, tree: Tree, stack: seq<Key>, order: seq<Key>, found: seq<Dependency>, node: Key)
    requires Followed(g, tree, stack, order, found) && node !in stack && node !in order
    requires stack != [] ==> Dependency(stack[|stack| - 1], node) in tree
    ensures Followed(g, tree, stack + [node], order, found) && forall e :: e in tree ==> e.from != node
  {
  }

  lemma TreeGrows(tree: Tree, more: Tree, a: Key, b: Key)
    requires TreeReaches(tree, a, b) && tree <= more
    ensures TreeReaches(more, a, b)
  {
    var p :| |p| > 0 && p[0] == a && p[|p| - 1] == b && InTree(tree, p);
    assert InTree(more, p);
  }

  lemma FollowedMore(g: Edges, tree: Tree, stack: seq<Key>, order: seq<Key>, found: seq<Dependency>, e: Dependency)
    requires Followed(g, tree, stack, order, found)
    requires HasEdge(g, e.from, e.to) && e !in found && e.from in stack
    ensures Followed(g, tree + {e}, stack, order, found)
  {
    forall f | f in found ensures TreeReaches(tree + {e}, f.to, f.from) {
      TreeGrows(tree, tree + {e}, f.to, f.from);
    }
    assert InTree(tree + {e}, stack);
  }

  lemma FollowedFound(g: Edges, tree: Tree, stack: seq<Key>, order: seq<Key>, found: seq<Dependency>, d: Key)
    requires Followed(g, tree, stack, order, found) && stack != [] && d in stack
    requires Dependency(stack[|stack| - 1], d) !in tree
    ensures Followed(g, tree, stack, order, found + [Dependency(stack[|stack| - 1], d)])
  {
    var j :| 0 <= j < |stack| && stack[j] == d;
    var tail := stack[j..];
    forall i | 0 <= i < |tail| - 1 ensures Dependency(tail[i], tail[i + 1]) in tree {
      assert Dependency(stack[j + i], stack[j + i + 1]) in tree;
    }
    assert tail[0] == d && tail[|tail| - 1] == stack[|stack| - 1] && InTree(tree, tail);
  }

  lemma FollowedClosed(g: Edges, tree: Tree, stack: seq<Key>, order: seq<Key>, found: seq<Dependency>, node: Key)
    requires Followed(g, tree, stack + [node], order, found)
    ensures Followed(g, tree, stack, order + [node], found)
  {
    var open := stack + [node];
    forall i | 0 <= i < |stack| - 1 ensures Dependency(stack[i], stack[i + 1]) in tree {
      assert Dependency(open[i], open[i + 1]) in tree;
    }
  }

  /** What the walk followed survives the cut, so every edge found is needed. */
  lemma FollowedIsNeeded(g: Edges, tree: Tree, order: seq<Key>, found: seq<Dependency>)
    requires Followed(g, tree, [], order, found)
    ensures EachNeeded(g, found)
  {
    var h := Without(g, found);
    forall e | e in found ensures Reaches(h, e.to, e.from) {
      var p :| |p| > 0 && p[0] == e.to && p[|p| - 1] == e.from && InTree(tree, p);
      forall i | 0 <= i < |p| - 1 ensures HasEdge(h, p[i], p[i + 1]) {
        assert Dependency(p[i], p[i + 1]) in tree;
      }
      assert PathFromTo(h, p, e.to, e.from);
    }
  }

  /** The edges found since lead from none of the nodes in `open`. */
  ghost predicate Grown(before: seq<Dependency>, found: seq<Dependency>, open: set<Key>) {
    (forall e :: e in before ==> e in found) && forall e :: e in found ==> e in before || e.from !in open
  }

  ghost predicate Spread(before: Tree, tree: Tree, open: set<Key>) {
    before <= tree && forall e :: e in tree ==> e in before || e.from !in open
  }

  /** The edges of `node` found or followed so far lead to targets already seen. */
  ghost predicate Examined(node: Key, seen: seq<Key>, found: seq<Dependency>, tree: Tree) {
    && (forall e :: e in found && e.from == node ==> e.to in seen)
    && (forall e :: e in tree && e.from == node ==> e.to in seen)
  }

  /** Every target seen is finished or its edge has been found. */
  ghost predicate Handled(node: Key, seen: seq<Key>, finished: set<Key>, found: seq<Dependency>) {
    forall d :: d in seen ==> d in finished || Dependency(node, d) in found
  }

  lemma HandledMore(node: Key, seen: seq<Key>, finished: set<Key>, found: seq<Dependency>, d: Key)
    requires Handled(node, seen, finished, found)
    ensures d in finished ==> Handled(node, seen + [d], finished, found)
    ensures Handled(node, seen + [d], finished, found + [Dependency(node, d)])
  {
  }

  lemma AllHandled(g: Edges, node: Key, finished: set<Key>, order: seq<Key>, found: seq<Dependency>)
    requires Handled(node, Dependencies(g, node), finished, found) && Lists(order, finished)
    ensures forall d :: HasEdge(g, node, d) ==> d in order || Dependency(node, d) in found
  {
  }

  /** The sequence lists the members of the set. */
  ghost predicate Lists(s: seq<Key>, members: set<Key>) {
    forall n :: n in members <==> n in s
  }

  lemma ListsMore(s: seq<Key>, members: set<Key>, n: Key)
    requires Lists(s, members)
    ensures n in members <==> n in s
    ensures Lists(s + [n], members + {n})
  {
  }

  lemma NoneExamined(node: Key, found: seq<Dependency>, tree: Tree)
    requires (forall e :: e in found ==> e.from != node) && forall e :: e in tree ==> e.from != node
    ensures Examined(node, [], found, tree)
  {
  }

  lemma WalkBegins(node: Key, found: seq<Dependency>, tree: Tree, open: set<Key>, finished: set<Key>)
    ensures Grown(found, found, open) && Spread(tree, tree, open) && Handled(node, [], finished, found)
  {
  }

  /** What a walk behind one target leaves of the bookkeeping at `node`. */
  lemma WalkedOn(
    node: Key, seen: seq<Key>, d: Key, closed: set<Key>, finished: set<Key>,
    before: seq<Dependency>, found: seq<Dependency>, grown: Tree, tree: Tree, open: set<Key>)
    requires Examined(node, seen + [d], before, grown) && Handled(node, seen, closed, before)
    requires Grown(before, found, open) && Spread(grown, tree, open) && node in open && closed + {d} <= finished
    ensures Examined(node, seen + [d], found, tree) && Handled(node, seen + [d], finished, found)
  {
  }

  lemma ListsLess(below: seq<Key>, open: set<Key>, node: Key, g: Edges, order: seq<Key>, found: seq<Dependency>)
    requires Lists(below + [node], open) && Consistent(g, below + [node], order, found)
    ensures Lists(below, open - {node})
  {
    var stack := below + [node];
    forall i | 0 <= i < |below| ensures below[i] != node {
      assert stack[i] != stack[|below|];
    }
  }

  lemma NewEdge(node: Key, seen: seq<Key>, found: seq<Dependency>, tree: Tree, d: Key)
    requires Examined(node, seen, found, tree) && d !in seen
    ensures Dependency(node, d) !in found && Dependency(node, d) !in tree
    ensures Examined(node, seen + [d], found, tree)
    ensures Examined(node, seen + [d], found + [Dependency(node, d)], tree)
    ensures Examined(node, seen + [d], found, tree + {Dependency(node, d)})
  {
  }

  lemma GrownOne(before: seq<Dependency>, found: seq<Dependency>, open: set<Key>, e: Dependency)
    requires Grown(before, found, open) && e.from !in open
    ensures Grown(before, found + [e], open)
  {
  }

  lemma SpreadOne(before: Tree, tree: Tree, open: set<Key>, e: Dependency)
    requires Spread(before, tree, open) && e.from !in open
    ensures Spread(before, tree + {e}, open)
  {
  }

  lemma GrownTwice(a: seq<Dependency>, b: seq<Dependency>, c: seq<Dependency>, open: set<Key>, more: set<Key>)
    requires Grown(a, b, open) && Grown(b, c, more) && open <= more
    ensures Grown(a, c, open)
  {
  }

  lemma SpreadTwice(a: Tree, b: Tree, c: Tree, open: set<Key>, more: set<Key>)
    requires Spread(a, b, open) && Spread(b, c, more) && open <= more
    ensures Spread(a, c, open)
  {
  }

  // ----- the order of the walk -----

  ghost predicate Grew(before: Paths, paths: Paths) {
    forall u :: u in before ==> u in paths && paths[u] == before[u]
  }

  lemma GrewTwice(a: Paths, b: Paths, c: Paths)
    requires Grew(a, b) && Grew(b, c)
    ensures Grew(a, c)
  {
  }

  lemma StackIsSimple(g: Edges, stack: seq<Key>, order: seq<Key>, found: seq<Dependency>, node: Key)
    requires Consistent(g, stack + [node], order, found) && node in g
    ensures SimplePathTo(g, stack + [node], node)
  {
    hide FinishedInOrder, LeadsDown;
    assert (stack + [node])[0] in stack + [node];
  }

  lemma OneLayerEach(g: Edges, finished: set<Key>, stack: seq<Key>, layers: seq<set<Key>>, paths: Paths)
    requires Traced(g, finished, stack, layers, paths)
    ensures |layers| == |stack|
  {
  }

  lemma TopPath(g: Edges, finished: set<Key>, below: seq<Key>, layers: seq<set<Key>>, paths: Paths, node: Key)
    requires Traced(g, finished, below + [node], layers, paths)
    ensures node in paths && paths[node] == below + [node]
  {
    hide Layers, Shut;
    AlongLess(g, finished, below, paths, node);
  }

  lemma TopWord(g: Edges, finished: set<Key>, stack: seq<Key>, layers: seq<set<Key>>, paths: Paths, d: Key)
    requires Traced(g, finished, stack, layers, paths) && stack != []
    ensures var top := stack[|stack| - 1];
            top in paths && paths[top] == stack && Word(paths, Dependency(top, d)) == stack + [d]
  {
    hide Traced;
    var n := |stack| - 1;
    assert stack == stack[..n] + [stack[n]];
    TopPath(g, finished, stack[..n], layers, paths, stack[n]);
  }

  /** Of a node about to be closed, every edge leads to a finished node or has been found, and found ones lead down. */
  lemma EdgesDealtWith(
    g: Edges, finished: set<Key>, below: seq<Key>, order: seq<Key>, found: seq<Dependency>, paths: Paths, node: Key)
    requires Reported(g, finished, found, paths) && Lists(order, finished)
    requires node in paths && paths[node] == below + [node]
    requires Consistent(g, below + [node], order, found)
    requires forall d :: HasEdge(g, node, d) ==> d in order || Dependency(node, d) in found
    ensures forall d :: HasEdge(g, node, d) ==> d in finished || d in below + [node]
    ensures forall v :: HasEdge(g, node, v) && v in paths[node] ==> Dependency(node, v) in found
  {
    hide FinishedInOrder, LeadsDown, ClosesCycle;
  }

  /** All edges found were met before the targets still to come, and none behind the stack. */
  ghost predicate Ahead(
    g: Edges, found: seq<Dependency>, paths: Paths, stack: seq<Key>, targets: seq<Key>, i: nat) {
    AllPast(g, found, paths, stack) &&
    forall j :: i <= j < |targets| ==> AllBefore(g, found, paths, stack + [targets[j]])
  }

  lemma AheadBegins(g: Edges, found: seq<Dependency>, paths: Paths, stack: seq<Key>, targets: seq<Key>)
    requires AllBefore(g, found, paths, stack)
    ensures Ahead(g, found, paths, stack, targets, 0)
  {
    hide AllBefore, AllPast;
    AllBeforeFurther(g, found, paths, stack, 0);
    forall j | 0 <= j < |targets| ensures AllBefore(g, found, paths, stack + [targets[j]]) {
      AllBeforeFurther(g, found, paths, stack, targets[j]);
    }
  }

  lemma AheadNow(g: Edges, found: seq<Dependency>, paths: Paths, stack: seq<Key>, targets: seq<Key>, i: nat)
    requires Ahead(g, found, paths, stack, targets, i) && i < |targets|
    ensures AllBefore(g, found, paths, stack + [targets[i]])
  {
    hide AllBefore, AllPast;
  }

  lemma AheadPasses(g: Edges, found: seq<Dependency>, paths: Paths, stack: seq<Key>, targets: seq<Key>, i: nat)
    requires Ahead(g, found, paths, stack, targets, i)
    ensures Ahead(g, found, paths, stack, targets, i + 1)
  {
    hide AllBefore, AllPast;
  }

  lemma AheadOn(g: Edges, found: seq<Dependency>, paths: Paths, stack: seq<Key>, targets: seq<Key>, i: nat)
    requires WellFormed(g) && stack != [] && targets == Dependencies(g, stack[|stack| - 1]) && i < |targets|
    requires AllPast(g, found, paths, stack + [targets[i]])
    ensures Ahead(g, found, paths, stack, targets, i + 1)
  {
    hide AllBefore, AllPast, WellFormed;
    AllPastShorter(g, found, paths, stack, targets[i]);
    forall j | i + 1 <= j < |targets| ensures AllBefore(g, found, paths, stack + [targets[j]]) {
      ListedLater(g, stack[|stack| - 1], i, j);
      AllPastNext(g, found, paths, stack, targets[i], targets[j]);
    }
  }

  lemma ListedLater(g: Edges, n: Key, i: nat, j: nat)
    requires WellFormed(g) && i < j < |Dependencies(g, n)|
    ensures Sooner(g, n, Dependencies(g, n)[i], Dependencies(g, n)[j])
  {
    var deps := Dependencies(g, n);
    assert deps[j] !in deps[..i + 1];
  }

  lemma AheadEnds(g: Edges, found: seq<Dependency>, paths: Paths, stack: seq<Key>, targets: seq<Key>)
    requires Ahead(g, found, paths, stack, targets, |targets|)
    ensures AllPast(g, found, paths, stack)
  {
    hide AllPast;
  }

  /** The targets before one that is to be followed have been dealt with. */
  lemma TargetIsDue(
    g: Edges, finished: set<Key>, stack: seq<Key>, layers: seq<set<Key>>, found: seq<Dependency>, paths: Paths, i: nat)
    requires WellFormed(g) && stack != [] && Traced(g, finished, stack, layers, paths)
    requires Reported(g, finished, found, paths) && i < |Dependencies(g, stack[|stack| - 1])|
    requires Handled(stack[|stack| - 1], Dependencies(g, stack[|stack| - 1])[..i], finished, found)
    ensures Due(g, finished, stack, Dependencies(g, stack[|stack| - 1])[i])
  {
    hide Traced;
    var top := stack[|stack| - 1];
    var targets := Dependencies(g, top);
    TopWord(g, finished, stack, layers, paths, top);
    forall x | x in g && Precedes(g, stack, x, targets[i]) ensures x in finished || x in stack {
      SoonerIsListed(g, top, x, i);
    }
  }

  /** The same for the nodes a walk starts from. */
  ghost predicate Roots(g: Edges, found: seq<Dependency>, paths: Paths, nodes: seq<Key>, i: nat) {
    forall j :: i <= j < |nodes| ==> AllBefore(g, found, paths, [nodes[j]])
  }

  lemma RootsBegin(g: Edges, found: seq<Dependency>, paths: Paths, nodes: seq<Key>)
    requires found == []
    ensures Roots(g, found, paths, nodes, 0)
  {
  }

  lemma RootNow(g: Edges, found: seq<Dependency>, paths: Paths, nodes: seq<Key>, i: nat)
    requires Roots(g, found, paths, nodes, i) && i < |nodes|
    ensures AllBefore(g, found, paths, [] + [nodes[i]])
  {
    hide AllBefore;
    assert [] + [nodes[i]] == [nodes[i]];
  }

  lemma RootPasses(g: Edges, found: seq<Dependency>, paths: Paths, nodes: seq<Key>, i: nat)
    requires Roots(g, found, paths, nodes, i)
    ensures Roots(g, found, paths, nodes, i + 1)
  {
    hide AllBefore;
  }

  lemma RootOn(g: Edges, found: seq<Dependency>, paths: Paths, nodes: seq<Key>, i: nat)
    requires WellFormed(g) && Ascending(nodes) && i < |nodes| && AllPast(g, found, paths, [] + [nodes[i]])
    ensures Roots(g, found, paths, nodes, i + 1)
  {
    hide AllBefore, AllPast, WellFormed;
    forall j | i + 1 <= j < |nodes| ensures AllBefore(g, found, paths, [nodes[j]]) {
      AllPastNext(g, found, paths, [], nodes[i], nodes[j]);
      assert [] + [nodes[j]] == [nodes[j]];
    }
  }

  lemma RootIsDue(g: Edges, finished: set<Key>, nodes: seq<Key>, i: nat)
    requires Ascending(nodes) && i < |nodes| && forall n :: n in g ==> n in nodes
    requires forall k :: 0 <= k < i ==> nodes[k] in finished
    ensures Due(g, finished, [], nodes[i])
  {
    forall x | x in g && x < nodes[i] ensures x in finished {
      var k :| 0 <= k < |nodes| && nodes[k] == x;
      assert k < i;
    }
  }

  lemma StackIsListed(stack: seq<Key>, onStack: set<Key>, n: Key)
    requires Lists(stack, onStack) && n !in stack
    ensures n !in onStack
  {
  }

  lemma AllFinished(g: Edges, finished: set<Key>, order: seq<Key>, found: seq<Dependency>, nodes: seq<Key>)
    requires Lists(order, finished) && Consistent(g, [], order, found)
    requires forall n :: n in nodes <==> n in g
    requires forall k :: 0 <= k < |nodes| ==> nodes[k] in finished
    ensures finished == g.Keys
  {
    hide FinishedInOrder, LeadsDown, ClosesCycle;
    assert forall n :: n in g ==> n in nodes;
  }

  class Search {
    const graph: Edges
    var finished: set<Key>
    var found: seq<Dependency>
    var onStack: set<Key>
    /** The nodes of `onStack`, outermost first. */
    ghost var stack: seq<Key>
    /** The nodes of `finished`, in the order they finished. */
    ghost var order: seq<Key>
    /** The edges the walk went down. */
    ghost var tree: Tree
    /** What was finished when each node of the stack was opened. */
    ghost var layers: seq<set<Key>>
    /** The stack each node was opened on. */
    ghost var paths: Paths

    constructor (g: Edges)
      requires WellFormed(g)
      ensures Valid() && graph == g && stack == [] && finished == {} && found == [] && layers == []
    {
      graph := g;
      finished, found, onStack := {}, [], {};
      stack, order, tree := [], [], {};
      layers, paths := [], map[];
      new;
      TraceBegins(g);
    }

    ghost predicate Valid()
      reads this
    {
      && WellFormed(graph)
      && Lists(stack, onStack) && Lists(order, finished)
      && Consistent(graph, stack, order, found)
      && Followed(graph, tree, stack, order, found)
      && Traced(graph, finished, stack, layers, paths)
      && Reported(graph, finished, found, paths) && InWalkOrder(graph, found, paths)
    }

    /** Put a node on the stack. */
    method Open(node: Key)
      requires Valid() && node in graph && node !in onStack && node !in finished && Due(graph, finished, stack, node)
      requires stack != [] ==> HasEdge(graph, stack[|stack| - 1], node) && Dependency(stack[|stack| - 1], node) in tree
      modifies `onStack, `stack, `layers, `paths
      ensures Valid() && stack == old(stack) + [node] && onStack == old(onStack) + {node}
      ensures layers == old(layers) + [finished] && Grew(old(paths), paths)
      ensures Examined(node, [], found, tree)
      ensures forall c :: AllBefore(graph, found, old(paths), c) ==> AllBefore(graph, found, paths, c)
    {
      hide Consistent, Followed, Lists, Examined, Traced, Reported, InWalkOrder, Due, SimplePathTo, AllBefore;
      ListsMore(stack, onStack, node);
      ListsMore(order, finished, node);
      Opened(graph, stack, order, found, node);
      FollowedOpened(graph, tree, stack, order, found, node);
      NoneExamined(node, found, tree);
      StackIsSimple(graph, stack, order, found, node);
      TraceOpens(graph, finished, stack, layers, paths, node);
      ReportedOpens(graph, finished, found, paths, node, stack + [node]);
      OrderOpens(graph, finished, found, paths, node, stack + [node]);
      onStack := onStack + {node};
      layers := layers + [finished];
      stack := stack + [node];
      paths := paths[node := stack];
    }

    /** Note an edge from the top of the stack back into it. */
    method Note(node: Key, dependency: Key)
      requires Valid() && stack != [] && stack[|stack| - 1] == node && HasEdge(graph, node, dependency) &&
               dependency in onStack
      requires Dependency(node, dependency) !in found && Dependency(node, dependency) !in tree
      requires AllBefore(graph, found, paths, stack + [dependency])
      modifies `found
      ensures Valid() && found == old(found) + [Dependency(node, dependency)]
      ensures AllPast(graph, found, paths, stack + [dependency])
    {
      hide Consistent, Followed, Lists, Traced, Reported, InWalkOrder, AllBefore, AllPast, Word;
      ListsMore(stack, onStack, dependency);
      FoundBack(graph, stack, order, found, dependency);
      FollowedFound(graph, tree, stack, order, found, dependency);
      TopWord(graph, finished, stack, layers, paths, dependency);
      ReportedMore(graph, finished, found, paths, Dependency(node, dependency));
      OrderMore(graph, found, paths, Dependency(node, dependency));
      AllPastMore(graph, found, paths, Dependency(node, dependency));
      found := found + [Dependency(node, dependency)];
    }

    /** Go down an edge from the top of the stack. */
    method Follow(node: Key, dependency: Key)
      requires Valid() && stack != [] && stack[|stack| - 1] == node && HasEdge(graph, node, dependency)
      requires Dependency(node, dependency) !in found
      requires dependency in graph && dependency !in onStack && dependency !in finished
      requires Due(graph, finished, stack, dependency) && AllBefore(graph, found, paths, stack + [dependency])
      modifies this
      ensures Valid() && stack == old(stack) && onStack == old(onStack) && old(finished) + {dependency} <= finished
      ensures layers == old(layers) && Grew(old(paths), paths)
      ensures Grown(old(found), found, onStack) && Spread(old(tree) + {Dependency(node, dependency)}, tree, onStack)
      ensures AllPast(graph, found, paths, stack + [dependency])
      decreases graph.Keys - onStack - finished, 1
    {
      hide Consistent, Followed, Lists, Grown, Spread, Traced, Reported, InWalkOrder, Due, AllBefore, AllPast, Grew;
      assert stack[|stack| - 1] in stack;
      FollowedMore(graph, tree, stack, order, found, Dependency(node, dependency));
      tree := tree + {Dependency(node, dependency)};
      Walk(dependency);
    }

    /** Take a node whose edges have all been dealt with off the stack. */
    method Close(node: Key, ghost below: seq<Key>, ghost under: seq<set<Key>>, ghost done: set<Key>)
      requires Valid() && stack == below + [node] && Handled(node, Dependencies(graph, node), finished, found)
      requires layers == under + [done] && |under| == |below|
      modifies `onStack, `stack, `finished, `order, `layers
      ensures Valid() && stack == below && onStack == old(onStack) - {node} && finished == old(finished) + {node}
      ensures layers == under
    {
      hide Consistent, Followed, Lists, Handled, Traced, Reported, InWalkOrder, Shut;
      AllHandled(graph, node, finished, order, found);
      FinishedNode(graph, below, order, found, node);
      FollowedClosed(graph, tree, below, order, found, node);
      TopPath(graph, finished, below, layers, paths, node);
      EdgesDealtWith(graph, finished, below, order, found, paths, node);
      TraceCloses(graph, finished, below, under, done, paths, node);
      ReportedCloses(graph, finished, found, paths, node);
      ListsMore(order, finished, node);
      ListsLess(below, onStack, node, graph, order, found);
      onStack := onStack - {node};
      stack := below;
      finished := finished + {node};
      order := order + [node];
      layers := under;
    }

    /** Visit a node and everything unfinished behind it, noting the edges that return to the stack. */
    method Walk(node: Key)
      requires Valid() && node in graph && node !in onStack && node !in finished && Due(graph, finished, stack, node)
      requires stack != [] ==> HasEdge(graph, stack[|stack| - 1], node) && Dependency(stack[|stack| - 1], node) in tree
      requires AllBefore(graph, found, paths, stack + [node])
      modifies this
      ensures Valid() && stack == old(stack) && onStack == old(onStack)
      ensures old(finished) + {node} <= finished
      ensures layers == old(layers) && Grew(old(paths), paths)
      ensures Grown(old(found), found, onStack) && Spread(old(tree), tree, onStack)
      ensures AllPast(graph, found, paths, stack + [node])
      decreases graph.Keys - onStack - finished, 0
    {
      hide Consistent, Followed, Grown, Spread, Examined, Handled, Lists, Traced, Reported, InWalkOrder, Due, AllBefore,
        AllPast, Grew, Ahead, WellFormed, HasEdge;
      OneLayerEach(graph, finished, stack, layers, paths);
      Open(node);
      var targets := Dependencies(graph, node);
      WalkBegins(node, found, tree, old(onStack), finished);
      AheadBegins(graph, found, paths, stack, targets);
      for i := 0 to |targets|
        invariant Valid() && stack == old(stack) + [node] && onStack == old(onStack) + {node}
        invariant layers == old(layers) + [old(finished)] && Grew(old(paths), paths)
        invariant old(finished) <= finished
        invariant Grown(old(found), found, old(onStack)) && Spread(old(tree), tree, old(onStack))
        invariant Examined(node, targets[..i], found, tree) && Handled(node, targets[..i], finished, found)
        invariant Ahead(graph, found, paths, stack, targets, i)
      {
        var dependency := targets[i];
        TargetIsNew(graph, node, i);
        NewEdge(node, targets[..i], found, tree, dependency);
        HandledMore(node, targets[..i], finished, found, dependency);
        AheadNow(graph, found, paths, stack, targets, i);
        if dependency in onStack {
          GrownOne(old(found), found, old(onStack), Dependency(node, dependency));
          Note(node, dependency);
          AheadOn(graph, found, paths, stack, targets, i);
        } else if dependency !in finished {
          assert node in old(graph.Keys - onStack - finished) && node !in graph.Keys - onStack - finished;
          SpreadOne(old(tree), tree, old(onStack), Dependency(node, dependency));
          ghost var before, grown, closed := found, tree + {Dependency(node, dependency)}, finished;
          TargetIsDue(graph, finished, stack, layers, found, paths, i);
          ghost var known := paths;
          Follow(node, dependency);
          WalkedOn(node, targets[..i], dependency, closed, finished, before, found, grown, tree, onStack);
          GrownTwice(old(found), before, found, old(onStack), onStack);
          SpreadTwice(old(tree), grown, tree, old(onStack), onStack);
          GrewTwice(old(paths), known, paths);
          AheadOn(graph, found, paths, stack, targets, i);
        } else {
          AheadPasses(graph, found, paths, stack, targets, i);
        }
      }
      assert targets[..|targets|] == targets;
      AheadEnds(graph, found, paths, stack, targets);
      Close(node, old(stack), old(layers), old(finished));
    }

    /** Start a walk at each node that no earlier walk has finished. */
    method WalkAll(nodes: seq<Key>)
      requires Valid() && stack == [] && layers == [] && found == []
      requires Ascending(nodes) && forall n :: n in nodes <==> n in graph
      modifies this
      ensures Valid() && stack == [] && layers == []
      ensures finished == graph.Keys
    {
      hide Consistent, Followed, Lists, Traced, Reported, InWalkOrder, AllBefore, AllPast, Grew, Due, Grown, Spread,
        Roots;
      RootsBegin(graph, found, paths, nodes);
      for i := 0 to |nodes|
        invariant Valid() && stack == [] && layers == []
        invariant forall k :: 0 <= k < i ==> nodes[k] in finished
        invariant Roots(graph, found, paths, nodes, i)
      {
        RootIsDue(graph, finished, nodes, i);
        RootNow(graph, found, paths, nodes, i);
        if nodes[i] !in finished {
          assert nodes[i] in nodes;
          StackIsListed(stack, onStack, nodes[i]);
          Walk(nodes[i]);
          RootOn(graph, found, paths, nodes, i);
        } else {
          RootPasses(graph, found, paths, nodes, i);
        }
      }
      AllFinished(graph, finished, order, found, nodes);
    }
  }

  /** The edges that lead back into the path being walked. Without them no cycle is left. */
  method BackEdgesOf(graph: Graph) returns (found: seq<Dependency>)
    requires graph.Valid()
    ensures IsCut(graph.edges, found)
    ensures LeadBackInOrder(graph.edges, found)
  {
    hide LeadBackInOrder, Traced, Reported, InWalkOrder;
    var search := new Search(graph.edges);
    search.WalkAll(InKeyOrder(graph.edges.Keys));
    CutLeavesAcyclic(graph.edges, search.order, search.found);
    FollowedIsNeeded(graph.edges, search.tree, search.order, search.found);
    WalkEnds(graph.edges, search.finished, search.found, search.paths);
    assert AgainstOrder(graph.edges, search.order, search.found);
    found := search.found;
  }

  lemma {:induction false} WalkOrderUnique(g: Edges, a: seq<Dependency>, b: seq<Dependency>)
    requires WellFormed(g) && forall e :: e in a <==> e in b
    requires forall e :: e in a ==> e.from in g && HasFirstPath(g, e.from)
    requires forall i, j :: 0 <= i < j < |a| ==> MetBefore(g, a[i], a[j])
    requires forall i, j :: 0 <= i < j < |b| ==> MetBefore(g, b[i], b[j])
    ensures a == b
  {
    hide WellFormed, FirstPath, MetBefore;
    if a == [] || b == [] {
      NoneInEither(a, b);
    } else {
      HeadIsFirst(g, a, b);
      TailsAgree(g, a, b);
      WalkOrderUnique(g, a[1..], b[1..]);
      assert a == [a[0]] + a[1..] && b == [b[0]] + b[1..];
    }
  }

  lemma NoneInEither(a: seq<Dependency>, b: seq<Dependency>)
    requires (a == [] || b == []) && forall e :: e in a <==> e in b
    ensures a == b
  {
    if a != [] {
      HeadIsMember(a);
    }
    if b != [] {
      HeadIsMember(b);
    }
  }

  lemma HeadIsMember(a: seq<Dependency>)
    requires a != []
    ensures a[0] in a
  {
  }

  lemma MetOnce(g: Edges, e: Dependency, f: Dependency)
    requires WellFormed(g) && MetBefore(g, e, f)
    requires HasFirstPath(g, e.from) && HasFirstPath(g, f.from)
    ensures !MetBefore(g, f, e) && e != f
  {
    hide WellFormed, FirstPath, Before;
    var p :| FirstPath(g, e.from, p);
    var q :| FirstPath(g, f.from, q);
    BeforeIsStrict(g, p + [e.to], q + [f.to]);
    if e == f {
      BeforeIsStrict(g, p + [e.to], p + [e.to]);
    }
  }

  lemma HeadIsFirst(g: Edges, a: seq<Dependency>, b: seq<Dependency>)
    requires WellFormed(g) && a != [] && b != [] && forall e :: e in a <==> e in b
    requires forall e :: e in a ==> e.from in g && HasFirstPath(g, e.from)
    requires forall i, j :: 0 <= i < j < |a| ==> MetBefore(g, a[i], a[j])
    requires forall i, j :: 0 <= i < j < |b| ==> MetBefore(g, b[i], b[j])
    ensures a[0] == b[0]
  {
    hide WellFormed, FirstPath, MetBefore;
    assert a[0] in a && b[0] in b;
    var i :| 0 <= i < |b| && b[i] == a[0];
    var j :| 0 <= j < |a| && a[j] == b[0];
    if i > 0 && j > 0 {
      MetOnce(g, a[0], b[0]);
    }
  }

  lemma TailsAgree(g: Edges, a: seq<Dependency>, b: seq<Dependency>)
    requires WellFormed(g) && a != [] && b != [] && a[0] == b[0] && forall e :: e in a <==> e in b
    requires forall e :: e in a ==> e.from in g && HasFirstPath(g, e.from)
    requires forall i, j :: 0 <= i < j < |a| ==> MetBefore(g, a[i], a[j])
    requires forall i, j :: 0 <= i < j < |b| ==> MetBefore(g, b[i], b[j])
    ensures forall e :: e in a[1..] <==> e in b[1..]
  {
    hide WellFormed, FirstPath, MetBefore;
    HeadOnce(g, a);
    HeadOnce(g, b);
    forall e ensures e in a[1..] <==> e in b[1..] {
      TailMember(a, e);
      TailMember(b, e);
    }
  }

  lemma TailMember(a: seq<Dependency>, e: Dependency)
    requires a != [] && a[0] !in a[1..]
    ensures e in a[1..] <==> e in a && e != a[0]
  {
    assert a == [a[0]] + a[1..];
  }

  lemma HeadOnce(g: Edges, a: seq<Dependency>)
    requires WellFormed(g) && a != []
    requires forall e :: e in a ==> e.from in g && HasFirstPath(g, e.from)
    requires forall i, j :: 0 <= i < j < |a| ==> MetBefore(g, a[i], a[j])
    ensures a[0] !in a[1..]
  {
    hide WellFormed, FirstPath, MetBefore;
    forall k | 0 <= k < |a[1..]| ensures a[1..][k] != a[0] {
      assert a[1..][k] == a[k + 1] && a[k + 1] in a && a[0] in a;
      MetOnce(g, a[0], a[k + 1]);
    }
  }

  /** The edges reported and their order are determined by the graph. */
  lemma ReportIsDetermined(g: Edges, a: seq<Dependency>, b: seq<Dependency>)
    requires WellFormed(g) && LeadBackInOrder(g, a) && LeadBackInOrder(g, b)
    requires forall e :: e in a || e in b ==> e.from in g
    ensures a == b
  {
    hide WellFormed, FirstPath, MetBefore;
    forall e ensures e in a <==> e in b {
      if e in a || e in b {
        assert HasFirstPath(g, e.from);
        var p :| FirstPath(g, e.from, p);
        assert IntoPath(g, a, e.from, p) && IntoPath(g, b, e.from, p);
        assert e == Dependency(e.from, e.to);
      }
    }
    WalkOrderUnique(g, a, b);
  }

  /**
   Of the nodes a cycle can be entered from, the least key is where the walk
   starts, so it is the edges back to that key that are reported.
   */
  lemma LeastKeyIsTarget(g: Edges, found: seq<Dependency>, r: Key, u: Key)
    requires WellFormed(g) && LeadBackInOrder(g, found) && HasEdge(g, u, r)
    requires forall n :: n in g && Reaches(g, n, r) ==> r <= n
    ensures Dependency(u, r) in found <==> Reaches(g, r, u)
  {
    hide FirstPath, MetBefore;
    assert u in g && HasFirstPath(g, u);
    var p :| FirstPath(g, u, p);
    assert IntoPath(g, found, u, p);
    FirstPathLeads(g, u, p);
    if r in p {
      var j :| 0 <= j < |p| && p[j] == r;
      TailLeads(g, p, j);
    }
    if Reaches(g, r, u) {
      FirstPathStartsLeast(g, u, p, r);
      ReachesOn(g, p[0], u, r);
      assert p[0] == r;
    }
  }

  lemma FirstPathLeads(g: Edges, u: Key, p: seq<Key>)
    requires FirstPath(g, u, p)
    ensures PathFromTo(g, p, p[0], u) && p[0] in g && Reaches(g, p[0], u)
  {
    assert PathFromTo(g, p, p[0], u);
  }

  lemma TailLeads(g: Edges, p: seq<Key>, j: nat)
    requires IsPath(g, p) && j < |p|
    ensures Reaches(g, p[j], p[|p| - 1])
  {
    var tail := p[j..];
    forall i | 0 <= i < |tail| - 1 ensures HasEdge(g, tail[i], tail[i + 1]) {
      assert HasEdge(g, p[j + i], p[j + i + 1]);
    }
    assert PathFromTo(g, tail, p[j], p[|p| - 1]);
  }

  lemma ReachesOn(g: Edges, a: Key, b: Key, c: Key)
    requires Reaches(g, a, b) && HasEdge(g, b, c)
    ensures Reaches(g, a, c)
  {
    var p :| PathFromTo(g, p, a, b);
    assert PathFromTo(g, [b, c], b, c);
    JoinPaths(g, p, [b, c], a, b, c);
  }

  /** No smaller cut will do: leaving out any edge found leaves a cycle. */
  lemma CutIsMinimal(g: Edges, found: seq<Dependency>, fewer: seq<Dependency>, e: Dependency)
    requires IsCut(g, found) && e in found && e !in fewer && forall f :: f in fewer ==> f in found
    ensures !Acyclic(Without(g, fewer))
  {
    var h := Without(g, fewer);
    assert ClosesCycle(g, e);
    var p :| PathFromTo(Without(g, found), p, e.to, e.from);
    forall i | 0 <= i < |p| - 1 ensures HasEdge(h, p[i], p[i + 1]) {
      assert HasEdge(Without(g, found), p[i], p[i + 1]);
    }
    assert PathFromTo(h, p, e.to, e.from) && HasEdge(h, e.from, e.to);
    EdgeClosesCycle(h, e.from, e.to);
  }

  lemma NothingCut(g: Edges, p: seq<Key>)
    requires IsPath(g, p)
    ensures IsPath(Without(g, []), p)
  {
    forall i | 0 <= i < |p| - 1 ensures HasEdge(Without(g, []), p[i], p[i + 1]) {
      assert HasEdge(g, p[i], p[i + 1]);
    }
  }

  /** There are back edges exactly when `toposort` leaves something stuck. */
  lemma BackEdgesIffStuck(g: Edges, found: seq<Dependency>, order: Order)
    requires WellFormed(g) && IsCut(g, found) && IsExact(g, order)
    ensures found == [] <==> order.stuck == []
  {
    if found != [] {
      var e := found[0];
      assert e in found && ClosesCycle(g, e);
      EdgeClosesCycle(g, e.from, e.to);
      CycleReachableIsCyclic(g, e.from);
      assert e.from in order.stuck;
    }
    if order.stuck != [] {
      assert order.stuck[0] in order.stuck;
      var n := order.stuck[0];
      var c :| Reaches(g, n, c) && OnCycle(g, c);
      var p :| PathFromTo(g, p, c, c) && |p| >= 2;
      NothingCut(g, p);
      assert OnCycle(Without(g, []), c);
    }
  }
}

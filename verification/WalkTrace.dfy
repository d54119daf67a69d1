/**
 What a depth-first walk leaves behind: the path it came to every node along,
 and the edges it has reported, in the order it met them.
 */
module WalkTrace {
  import opened GraphModel
  import opened KeyOrder
  import opened Graphs
  import opened WalkOrder

  type Paths = map<Key, seq<Key>>

  // ----- paths -----

  /** The open nodes were met along the stack. */
  ghost predicate AlongStack(stack: seq<Key>, paths: Paths) {
    forall k :: 0 <= k < |stack| ==> stack[k] in paths && paths[stack[k]] == stack[..k + 1]
  }

  /** Every node met was met along the first simple path to it, and the open ones along the stack. */
  ghost predicate Along(g: Edges, finished: set<Key>, stack: seq<Key>, paths: Paths) {
    && AlongStack(stack, paths)
    && (forall u :: u in finished ==> u in paths)
    && (forall u :: u in paths ==> FirstPath(g, u, paths[u]) && (u in finished || u in stack))
  }

  /** Finished nodes lead to finished and open ones only. */
  ghost predicate Shut(g: Edges, finished: set<Key>, stack: seq<Key>) {
    forall x, d :: x in finished && HasEdge(g, x, d) ==> d in finished || d in stack
  }

  ghost predicate Within(layers: seq<set<Key>>, finished: set<Key>) {
    forall k :: 0 <= k < |layers| ==> layers[k] <= finished
  }

  /** The walk between two steps. */
  ghost predicate Traced(g: Edges, finished: set<Key>, stack: seq<Key>, layers: seq<set<Key>>, paths: Paths) {
    && Layers(g, stack, layers) && Within(layers, finished)
    && Shut(g, finished, stack) && Along(g, finished, stack, paths)
  }

  /** Everything the walk turns to before `node` has been dealt with. */
  ghost predicate Due(g: Edges, finished: set<Key>, stack: seq<Key>, node: Key) {
    forall x :: x in g && Precedes(g, stack, x, node) ==> x in finished || x in stack
  }

  lemma TraceBegins(g: Edges)
    ensures Traced(g, {}, [], [], map[])
  {
  }

  lemma DueIsLayer(g: Edges, finished: set<Key>, stack: seq<Key>, node: Key)
    requires Due(g, finished, stack, node) && Shut(g, finished, stack)
    ensures Layer(g, stack, node, finished)
  {
    hide Precedes;
  }

  lemma StackMore(stack: seq<Key>, paths: Paths, node: Key)
    requires AlongStack(stack, paths) && node !in stack
    ensures AlongStack(stack + [node], paths[node := stack + [node]])
  {
    var open, more := stack + [node], paths[node := stack + [node]];
    forall k | 0 <= k < |open| ensures open[k] in more && more[open[k]] == open[..k + 1] {
      if k < |stack| {
        assert open[k] == stack[k] && stack[k] != node && open[..k + 1] == stack[..k + 1];
      } else {
        assert open[..k + 1] == open;
      }
    }
  }

  lemma StackLess(stack: seq<Key>, paths: Paths, node: Key)
    requires AlongStack(stack + [node], paths)
    ensures AlongStack(stack, paths) && node in paths && paths[node] == stack + [node]
  {
    var open := stack + [node];
    forall k | 0 <= k < |stack| ensures stack[k] in paths && paths[stack[k]] == stack[..k + 1] {
      assert open[k] == stack[k] && open[..k + 1] == stack[..k + 1];
    }
    assert open[|stack|] == node && open[..|stack| + 1] == open;
  }

  lemma AlongMore(g: Edges, finished: set<Key>, stack: seq<Key>, paths: Paths, node: Key)
    requires Along(g, finished, stack, paths) && node !in finished && node !in stack
    requires FirstPath(g, node, stack + [node])
    ensures node !in paths && Along(g, finished, stack + [node], paths[node := stack + [node]])
  {
    hide FirstPath, AlongStack;
    StackMore(stack, paths, node);
  }

  /** Opening a node: the stack is the first simple path to it. */
  lemma TraceOpens(g: Edges, finished: set<Key>, stack: seq<Key>, layers: seq<set<Key>>, paths: Paths, node: Key)
    requires WellFormed(g) && Traced(g, finished, stack, layers, paths) && Due(g, finished, stack, node)
    requires SimplePathTo(g, stack + [node], node) && node !in finished && node !in stack
    ensures node !in paths
    ensures Traced(g, finished, stack + [node], layers + [finished], paths[node := stack + [node]])
  {
    hide Layers, Layer, Along, WellFormed, SimplePathTo, Due, FirstPath;
    DueIsLayer(g, finished, stack, node);
    LayersMore(g, stack, layers, node, finished);
    StackIsFirst(g, stack + [node], layers + [finished], node);
    AlongMore(g, finished, stack, paths, node);
    assert Shut(g, finished, stack + [node]);
  }

  lemma AlongLess(g: Edges, finished: set<Key>, stack: seq<Key>, paths: Paths, node: Key)
    requires Along(g, finished, stack + [node], paths)
    ensures Along(g, finished + {node}, stack, paths) && node in paths && paths[node] == stack + [node]
  {
    hide FirstPath, AlongStack;
    StackLess(stack, paths, node);
    assert forall u :: u in stack + [node] ==> u in stack || u == node;
  }

  lemma ShutLess(g: Edges, finished: set<Key>, stack: seq<Key>, node: Key)
    requires Shut(g, finished, stack + [node])
    requires forall d :: HasEdge(g, node, d) ==> d in finished || d in stack + [node]
    ensures Shut(g, finished + {node}, stack)
  {
  }

  lemma TraceCloses(
    g: Edges, finished: set<Key>, stack: seq<Key>, layers: seq<set<Key>>, done: set<Key>, paths: Paths, node: Key)
    requires Traced(g, finished, stack + [node], layers + [done], paths) && |layers| == |stack|
    requires forall d :: HasEdge(g, node, d) ==> d in finished || d in stack + [node]
    ensures Traced(g, finished + {node}, stack, layers, paths)
  {
    hide Layers, Along, Shut;
    LayersLess(g, stack, layers, node, done);
    AlongLess(g, finished, stack, paths, node);
    ShutLess(g, finished, stack, node);
    forall k | 0 <= k < |layers| ensures layers[k] <= finished + {node} {
      assert (layers + [done])[k] <= finished;
    }
  }

  // ----- reported edges -----

  /**
   The edges reported lead into the path their source was met along, and from a
   finished node all of those have been reported.
   */
  ghost predicate Reported(g: Edges, finished: set<Key>, found: seq<Dependency>, paths: Paths) {
    && (forall e :: e in found ==> HasEdge(g, e.from, e.to) && e.from in paths && e.to in paths[e.from])
    && (forall u, v :: u in finished && u in paths && HasEdge(g, u, v) && v in paths[u] ==> Dependency(u, v) in found)
  }

  lemma ReportedMore(g: Edges, finished: set<Key>, found: seq<Dependency>, paths: Paths, e: Dependency)
    requires Reported(g, finished, found, paths)
    requires HasEdge(g, e.from, e.to) && e.from in paths && e.to in paths[e.from]
    ensures Reported(g, finished, found + [e], paths)
  {
  }

  lemma ReportedOpens(g: Edges, finished: set<Key>, found: seq<Dependency>, paths: Paths, node: Key, path: seq<Key>)
    requires Reported(g, finished, found, paths) && node !in paths && node !in finished
    ensures Reported(g, finished, found, paths[node := path])
  {
  }

  lemma ReportedCloses(g: Edges, finished: set<Key>, found: seq<Dependency>, paths: Paths, node: Key)
    requires Reported(g, finished, found, paths) && node in paths
    requires forall v :: HasEdge(g, node, v) && v in paths[node] ==> Dependency(node, v) in found
    ensures Reported(g, finished + {node}, found, paths)
  {
  }

  // ----- in the order met -----

  /** The path to the source of the edge, and then the edge. */
  function Word(paths: Paths, e: Dependency): seq<Key> {
    (if e.from in paths then paths[e.from] else []) + [e.to]
  }

  ghost predicate InWalkOrder(g: Edges, found: seq<Dependency>, paths: Paths) {
    forall i, j :: 0 <= i < j < |found| ==> Before(g, Word(paths, found[i]), Word(paths, found[j]))
  }

  /** All edges reported were met before the walk came to `c`. */
  ghost predicate AllBefore(g: Edges, found: seq<Dependency>, paths: Paths, c: seq<Key>) {
    forall e :: e in found ==> Before(g, Word(paths, e), c)
  }

  /** All edges reported were met before the walk left `c`. */
  ghost predicate AllPast(g: Edges, found: seq<Dependency>, paths: Paths, c: seq<Key>) {
    forall e :: e in found ==> Past(g, Word(paths, e), c)
  }

  lemma OrderMore(g: Edges, found: seq<Dependency>, paths: Paths, e: Dependency)
    requires InWalkOrder(g, found, paths) && AllBefore(g, found, paths, Word(paths, e))
    ensures InWalkOrder(g, found + [e], paths)
  {
    hide Before, Word;
    var more := found + [e];
    forall i, j | 0 <= i < j < |more| ensures Before(g, Word(paths, more[i]), Word(paths, more[j])) {
      assert more[i] == found[i] && found[i] in found;
      assert j < |found| ==> more[j] == found[j];
    }
  }

  /** A node met only now is the source of no edge reported. */
  lemma OrderOpens(g: Edges, finished: set<Key>, found: seq<Dependency>, paths: Paths, node: Key, path: seq<Key>)
    requires InWalkOrder(g, found, paths) && Reported(g, finished, found, paths) && node !in paths
    ensures InWalkOrder(g, found, paths[node := path])
    ensures forall c :: AllBefore(g, found, paths, c) ==> AllBefore(g, found, paths[node := path], c)
  {
    hide Before;
    var more := paths[node := path];
    forall e | e in found ensures Word(more, e) == Word(paths, e) {
      assert e.from in paths;
    }
    forall i, j | 0 <= i < j < |found| ensures Before(g, Word(more, found[i]), Word(more, found[j])) {
      assert found[i] in found && found[j] in found;
      assert Before(g, Word(paths, found[i]), Word(paths, found[j]));
    }
  }

  lemma AllBeforeFurther(g: Edges, found: seq<Dependency>, paths: Paths, c: seq<Key>, d: Key)
    requires AllBefore(g, found, paths, c)
    ensures AllBefore(g, found, paths, c + [d]) && AllPast(g, found, paths, c)
  {
    hide Before, Word;
    forall e | e in found ensures Before(g, Word(paths, e), c + [d]) {
      BeforeFurther(g, Word(paths, e), c, d);
    }
  }

  lemma AllPastNext(g: Edges, found: seq<Dependency>, paths: Paths, p: seq<Key>, d: Key, e: Key)
    requires WellFormed(g) && AllPast(g, found, paths, p + [d]) && Precedes(g, p, d, e)
    ensures AllBefore(g, found, paths, p + [e])
  {
    hide Before, Word, Past, Precedes, WellFormed;
    forall f | f in found ensures Before(g, Word(paths, f), p + [e]) {
      PastNext(g, Word(paths, f), p, d, e);
    }
  }

  lemma AllPastShorter(g: Edges, found: seq<Dependency>, paths: Paths, p: seq<Key>, d: Key)
    requires AllPast(g, found, paths, p + [d])
    ensures AllPast(g, found, paths, p)
  {
    hide Before, Word, Past;
    forall f | f in found ensures Past(g, Word(paths, f), p) {
      PastShorter(g, Word(paths, f), p, d);
    }
  }

  /** An edge met from the end of the stack is past its own word. */
  lemma AllPastMore(g: Edges, found: seq<Dependency>, paths: Paths, e: Dependency)
    requires AllBefore(g, found, paths, Word(paths, e))
    ensures AllPast(g, found + [e], paths, Word(paths, e))
  {
    hide Before, Word;
    var w := Word(paths, e);
    assert w[..|w|] == w;
  }

  // ----- what the finished walk has reported -----

  ghost predicate HasFirstPath(g: Edges, u: Key) {
    exists p :: FirstPath(g, u, p)
  }

  /** Of the edges of `u`, those reported are the ones that lead into `p`. */
  ghost predicate IntoPath(g: Edges, found: seq<Dependency>, u: Key, p: seq<Key>) {
    forall v :: Dependency(u, v) in found <==> HasEdge(g, u, v) && v in p
  }

  /** The walk meets `e` before `f`. */
  ghost predicate MetBefore(g: Edges, e: Dependency, f: Dependency) {
    forall p, q :: FirstPath(g, e.from, p) && FirstPath(g, f.from, q) ==> Before(g, p + [e.to], q + [f.to])
  }

  /**
   An edge is reported exactly when it leads into the first simple path to its
   source, and the edges come in the order in which the walk meets them.
   */
  ghost predicate LeadBackInOrder(g: Edges, found: seq<Dependency>) {
    && (forall u :: u in g ==> HasFirstPath(g, u))
    && (forall u, p :: FirstPath(g, u, p) ==> IntoPath(g, found, u, p))
    && (forall i, j :: 0 <= i < j < |found| ==> MetBefore(g, found[i], found[j]))
  }

  lemma PathsAreFirst(g: Edges, finished: set<Key>, paths: Paths, u: Key, p: seq<Key>)
    requires WellFormed(g) && Along(g, finished, [], paths) && finished == g.Keys && FirstPath(g, u, p)
    ensures u in finished && u in paths && paths[u] == p
  {
    PathNodes(g, p, |p| - 1);
    hide WellFormed;
    FirstPathIsUnique(g, u, p, paths[u]);
  }

  lemma WalkEnds(g: Edges, finished: set<Key>, found: seq<Dependency>, paths: Paths)
    requires WellFormed(g) && Traced(g, finished, [], [], paths) && finished == g.Keys
    requires Reported(g, finished, found, paths) && InWalkOrder(g, found, paths)
    ensures LeadBackInOrder(g, found)
  {
    hide WellFormed, FirstPath, Before;
    forall u | u in g ensures HasFirstPath(g, u) {
      assert FirstPath(g, u, paths[u]);
    }
    forall u, p | FirstPath(g, u, p) ensures IntoPath(g, found, u, p) {
      PathsAreFirst(g, finished, paths, u, p);
    }
    forall i, j | 0 <= i < j < |found| ensures MetBefore(g, found[i], found[j]) {
      assert Before(g, Word(paths, found[i]), Word(paths, found[j]));
      forall p, q | FirstPath(g, found[i].from, p) && FirstPath(g, found[j].from, q)
        ensures Before(g, p + [found[i].to], q + [found[j].to])
      {
        PathsAreFirst(g, finished, paths, found[i].from, p);
        PathsAreFirst(g, finished, paths, found[j].from, q);
      }
    }
  }
}

/** The mutable graph and its edge bookkeeping. */
module Graphs {
  import opened GraphModel
  import opened KeyOrder

  class Graph {
    var edges: Edges

    /** The invariant every graph algorithm relies on. */
    ghost predicate Valid()
      reads this
    {
      WellFormed(edges)
    }

    constructor ()
      ensures Valid() && edges == map[]
    {
      edges := map[];
    }

    /** Make sure the node exists; edges are never touched. */
    method AddNode(node: Key)
      requires Valid()
      modifies this
      ensures Valid()
      ensures edges == WithNode(old(edges), node)
      ensures edges.Keys == old(edges).Keys + {node}
      ensures forall n :: Dependencies(edges, n) == Dependencies(old(edges), n)
    {
      if node !in edges {
        edges := edges[node := []];
      }
    }

    /** One more dependency; both ends become nodes, and a repeated edge changes nothing. */
    method AddEdge(from: Key, to: Key)
      requires Valid()
      modifies this
      ensures Valid()
      ensures edges == WithEdge(old(edges), from, to)
      ensures edges.Keys == old(edges).Keys + {from, to}
      ensures forall n :: n != from ==> Dependencies(edges, n) == Dependencies(old(edges), n)
      ensures HasEdge(old(edges), from, to) ==> Dependencies(edges, from) == Dependencies(old(edges), from)
      ensures !HasEdge(old(edges), from, to) ==> Dependencies(edges, from) == Dependencies(old(edges), from) + [to]
    {
      AddNode(to);
      if from !in edges {
        edges := edges[from := []];
      }
      if to !in edges[from] {
        edges := edges[from := edges[from] + [to]];
      }
    }
  }

  function WithNode(g: Edges, node: Key): Edges {
    if node in g then g else g[node := []]
  }

  function WithEdge(g: Edges, from: Key, to: Key): Edges {
    var h := WithNode(WithNode(g, to), from);
    if to in h[from] then h else h[from := h[from] + [to]]
  }

  // ----- graphs up to insertion order -----

  type Relation = map<Key, set<Key>>

  function Targets(g: Edges, n: Key): set<Key> {
    set d | d in Dependencies(g, n)
  }

  /** What a graph says once the order its edges were added in is forgotten. */
  function EdgeRelation(g: Edges): Relation {
    map n | n in g :: Targets(g, n)
  }

  datatype Dependency = Dependency(from: Key, to: Key)

  /** The graph built by adding `edges` one after the other. */
  function Build(edges: seq<Dependency>): Edges {
    if edges == [] then map[]
    else
      var last := edges[|edges| - 1];
      WithEdge(Build(edges[..|edges| - 1]), last.from, last.to)
  }

  ghost predicate Mentions(edges: seq<Dependency>, n: Key) {
    exists e :: e in edges && (e.from == n || e.to == n)
  }

  lemma WithEdgeHolds(g: Edges, from: Key, to: Key)
    requires WellFormed(g)
    ensures WellFormed(WithEdge(g, from, to))
    ensures WithEdge(g, from, to).Keys == g.Keys + {from, to}
    ensures forall a, b :: HasEdge(WithEdge(g, from, to), a, b) <==> HasEdge(g, a, b) || (a == from && b == to)
  {
  }

  lemma MentionsLast(init: seq<Dependency>, last: Dependency, n: Key)
    ensures Mentions(init + [last], n) <==> Mentions(init, n) || n == last.from || n == last.to
  {
    assert last in init + [last];
    assert forall e :: e in init ==> e in init + [last];
  }

  /** A built graph is well formed and holds exactly the edges it was given. */
  lemma {:induction false} BuildHolds(edges: seq<Dependency>)
    ensures WellFormed(Build(edges))
    ensures forall n :: n in Build(edges) <==> Mentions(edges, n)
    ensures forall a, b :: HasEdge(Build(edges), a, b) <==> Dependency(a, b) in edges
  {
    if edges != [] {
      var init, last := edges[..|edges| - 1], edges[|edges| - 1];
      assert edges == init + [last];
      BuildHolds(init);
      WithEdgeHolds(Build(init), last.from, last.to);
      forall n ensures n in Build(edges) <==> Mentions(edges, n) {
        MentionsLast(init, last, n);
      }
    }
  }

  lemma SameRelation(g: Edges, h: Edges)
    requires g.Keys == h.Keys
    requires forall a, b :: HasEdge(g, a, b) <==> HasEdge(h, a, b)
    ensures EdgeRelation(g) == EdgeRelation(h)
  {
    forall n | n in g ensures Targets(g, n) == Targets(h, n) {
      assert forall d :: d in Targets(g, n) <==> HasEdge(g, n, d);
      assert forall d :: d in Targets(h, n) <==> HasEdge(h, n, d);
    }
  }

  lemma SameMentions(a: seq<Dependency>, b: seq<Dependency>, n: Key)
    requires forall e :: e in a <==> e in b
    ensures Mentions(a, n) <==> Mentions(b, n)
  {
  }

  /** Two insertion orders of the same edges build the same relation. */
  lemma InsertionOrderForgotten(a: seq<Dependency>, b: seq<Dependency>)
    requires forall e :: e in a <==> e in b
    ensures EdgeRelation(Build(a)) == EdgeRelation(Build(b))
  {
    var g, h := Build(a), Build(b);
    assert g.Keys == h.Keys && forall x, y :: HasEdge(g, x, y) <==> HasEdge(h, x, y) by {
      BuildHolds(a);
      BuildHolds(b);
      forall n ensures Mentions(a, n) <==> Mentions(b, n) {
        SameMentions(a, b, n);
      }
    }
    SameRelation(g, h);
  }
}

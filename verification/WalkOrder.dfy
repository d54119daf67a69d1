/**
 The order a depth-first walk takes paths in: first nodes by key, and every next
 node by its place among the dependencies of the one before.
 */
module WalkOrder {
  import opened GraphModel
  import opened KeyOrder

  /** `n` lists `a`, and `b` not before it. */
  ghost predicate Sooner(g: Edges, n: Key, a: Key, b: Key) {
    exists i :: 0 <= i < |Dependencies(g, n)| && Dependencies(g, n)[i] == a && b !in Dependencies(g, n)[..i + 1]
  }

  /** From the end of `p` the walk turns to `a` before it turns to `b`. */
  ghost predicate Precedes(g: Edges, p: seq<Key>, a: Key, b: Key) {
    if p == [] then a < b else Sooner(g, p[|p| - 1], a, b)
  }

  ghost predicate PartsAt(g: Edges, p: seq<Key>, q: seq<Key>, k: nat) {
    k < |p| && k < |q| && p[..k] == q[..k] && Precedes(g, p[..k], p[k], q[k])
  }

  /** Where they part, `p` takes the way the walk takes first. */
  ghost predicate Before(g: Edges, p: seq<Key>, q: seq<Key>) {
    exists k: nat :: PartsAt(g, p, q, k)
  }

  ghost predicate SimplePathTo(g: Edges, p: seq<Key>, u: Key) {
    IsPath(g, p) && NoDuplicates(p) && p[0] in g && p[|p| - 1] == u
  }

  /** Of all simple paths to `u`, whatever node they start from, `p` is the first. */
  ghost predicate FirstPath(g: Edges, u: Key, p: seq<Key>) {
    SimplePathTo(g, p, u) && forall q :: SimplePathTo(g, q, u) ==> q == p || Before(g, p, q)
  }

  // ----- the order on paths -----

  lemma SoonerIsStrict(g: Edges, n: Key, a: Key, b: Key)
    requires Sooner(g, n, a, b)
    ensures !Sooner(g, n, b, a) && a != b
  {
    var deps := Dependencies(g, n);
    var i :| 0 <= i < |deps| && deps[i] == a && b !in deps[..i + 1];
    InPrefix(deps, i, i + 1);
    forall j | 0 <= j < |deps| && deps[j] == b ensures a in deps[..j + 1] {
      BehindPrefix(deps, j, i + 1);
      InPrefix(deps, i, j + 1);
    }
  }

  lemma BehindPrefix(deps: seq<Key>, k: nat, end: nat)
    requires k < |deps| && end <= |deps| && deps[k] !in deps[..end]
    ensures end <= k
  {
    if k < end {
      InPrefix(deps, k, end);
    }
  }

  lemma InPrefix(deps: seq<Key>, k: nat, end: nat)
    requires k < end <= |deps|
    ensures deps[k] in deps[..end]
  {
    assert deps[..end][k] == deps[k];
  }

  lemma SoonerChains(g: Edges, n: Key, a: Key, b: Key, c: Key)
    requires Sooner(g, n, a, b) && Sooner(g, n, b, c)
    ensures Sooner(g, n, a, c)
  {
    var deps := Dependencies(g, n);
    var i :| 0 <= i < |deps| && deps[i] == a && b !in deps[..i + 1];
    var j :| 0 <= j < |deps| && deps[j] == b && c !in deps[..j + 1];
    BehindPrefix(deps, j, i + 1);
    assert deps[..i + 1] == deps[..j + 1][..i + 1];
  }

  lemma {:induction false} FirstListed(deps: seq<Key>, a: Key) returns (i: nat)
    requires a in deps
    ensures i < |deps| && deps[i] == a && a !in deps[..i]
  {
    if deps[0] == a {
      i := 0;
    } else {
      var k := FirstListed(deps[1..], a);
      i := k + 1;
      assert deps[..i] == [deps[0]] + deps[1..][..k];
    }
  }

  lemma SoonerOneWay(g: Edges, n: Key, a: Key, b: Key)
    requires HasEdge(g, n, a) && HasEdge(g, n, b) && a != b
    ensures Sooner(g, n, a, b) || Sooner(g, n, b, a)
  {
    var deps := Dependencies(g, n);
    var i := FirstListed(deps, a);
    var j := FirstListed(deps, b);
    if i < j {
      assert deps[..i + 1] == deps[..j][..i + 1];
    } else {
      assert deps[..j + 1] == deps[..i][..j + 1];
    }
  }

  lemma SoonerIsListed(g: Edges, n: Key, x: Key, i: nat)
    requires i < |Dependencies(g, n)| && Sooner(g, n, x, Dependencies(g, n)[i])
    ensures x in Dependencies(g, n)[..i]
  {
    var deps := Dependencies(g, n);
    var k :| 0 <= k < |deps| && deps[k] == x && deps[i] !in deps[..k + 1];
    BehindPrefix(deps, i, k + 1);
    InPrefix(deps, k, i);
  }

  lemma PrecedesIsStrict(g: Edges, p: seq<Key>, a: Key, b: Key)
    requires Precedes(g, p, a, b)
    ensures !Precedes(g, p, b, a) && a != b
  {
    hide Sooner;
    if p != [] {
      SoonerIsStrict(g, p[|p| - 1], a, b);
    }
  }

  lemma PrecedesChains(g: Edges, p: seq<Key>, a: Key, b: Key, c: Key)
    requires Precedes(g, p, a, b) && Precedes(g, p, b, c)
    ensures Precedes(g, p, a, c)
  {
    hide Sooner;
    if p != [] {
      SoonerChains(g, p[|p| - 1], a, b, c);
    }
  }

  lemma SharedPrefix(p: seq<Key>, q: seq<Key>, j: nat, k: nat)
    requires j < k <= |p| && k <= |q| && p[..k] == q[..k]
    ensures p[j] == q[j]
  {
    assert p[..k][j] == q[..k][j];
  }

  lemma BeforeIsStrict(g: Edges, p: seq<Key>, q: seq<Key>)
    requires Before(g, p, q)
    ensures !Before(g, q, p) && p != q
  {
    hide Precedes, WellFormed;
    var k: nat :| PartsAt(g, p, q, k);
    PrecedesIsStrict(g, p[..k], p[k], q[k]);
    if Before(g, q, p) {
      var j: nat :| PartsAt(g, q, p, j);
      PrecedesIsStrict(g, q[..j], q[j], p[j]);
      if j < k {
        SharedPrefix(p, q, j, k);
      } else if k < j {
        SharedPrefix(p, q, k, j);
      }
    }
  }

  lemma FirstPathIsUnique(g: Edges, u: Key, p: seq<Key>, q: seq<Key>)
    requires FirstPath(g, u, p) && FirstPath(g, u, q)
    ensures p == q
  {
    hide WellFormed, SimplePathTo, Before;
    if p != q {
      BeforeIsStrict(g, p, q);
    }
  }

  /** `w` comes before `c`, or goes through it. */
  ghost predicate Past(g: Edges, w: seq<Key>, c: seq<Key>) {
    Before(g, w, c) || (|c| <= |w| && w[..|c|] == c)
  }

  lemma BeforeFurther(g: Edges, w: seq<Key>, c: seq<Key>, d: Key)
    requires Before(g, w, c)
    ensures Before(g, w, c + [d])
  {
    hide Precedes;
    var k: nat :| PartsAt(g, w, c, k);
    assert (c + [d])[..k] == c[..k];
    assert PartsAt(g, w, c + [d], k);
  }

  /** What is past one way on comes before the ways taken after it. */
  lemma PastNext(g: Edges, w: seq<Key>, p: seq<Key>, d: Key, e: Key)
    requires Past(g, w, p + [d]) && Precedes(g, p, d, e)
    ensures Before(g, w, p + [e])
  {
    hide Precedes, WellFormed;
    var c, n := p + [d], p + [e];
    if Before(g, w, c) {
      var k: nat :| PartsAt(g, w, c, k);
      assert c[..k] == n[..k];
      if k == |p| {
        assert c[..k] == p;
        PrecedesChains(g, p, w[k], d, e);
      }
      assert PartsAt(g, w, n, k);
    } else {
      assert w[|p|] == w[..|c|][|p|] == d;
      assert w[..|p|] == w[..|c|][..|p|] == p && n[..|p|] == p;
      assert PartsAt(g, w, n, |p|);
    }
  }

  lemma PastShorter(g: Edges, w: seq<Key>, p: seq<Key>, d: Key)
    requires Past(g, w, p + [d])
    ensures Past(g, w, p)
  {
    hide Precedes;
    var c := p + [d];
    if Before(g, w, c) {
      var k: nat :| PartsAt(g, w, c, k);
      if k < |p| {
        assert c[..k] == p[..k];
        assert PartsAt(g, w, p, k);
      } else {
        assert c[..k] == p;
      }
    } else {
      assert w[..|p|] == w[..|c|][..|p|] == p;
    }
  }

  // ----- why a walk comes along the first path -----

  /**
   When `node` was reached over `below`, whatever the walk turns to before it had
   been dealt with: `done` leads nowhere but to itself and into `below`.
   */
  ghost predicate Layer(g: Edges, below: seq<Key>, node: Key, done: set<Key>) {
    && (forall x :: x in g && Precedes(g, below, x, node) ==> x in done || x in below)
    && (forall x, d :: x in done && HasEdge(g, x, d) ==> d in done || d in below)
  }

  ghost predicate Layers(g: Edges, stack: seq<Key>, layers: seq<set<Key>>) {
    |layers| == |stack| && forall k :: 0 <= k < |stack| ==> Layer(g, stack[..k], stack[k], layers[k])
  }

  lemma LayersMore(g: Edges, stack: seq<Key>, layers: seq<set<Key>>, node: Key, done: set<Key>)
    requires Layers(g, stack, layers) && Layer(g, stack, node, done)
    ensures Layers(g, stack + [node], layers + [done])
  {
    hide Layer;
    forall k | 0 <= k < |stack| + 1 ensures Layer(g, (stack + [node])[..k], (stack + [node])[k], (layers + [done])[k]) {
      assert (stack + [node])[..k] == stack[..k];
      if k == |stack| {
        assert stack[..k] == stack;
      }
    }
  }

  lemma LayersLess(g: Edges, stack: seq<Key>, layers: seq<set<Key>>, node: Key, done: set<Key>)
    requires Layers(g, stack + [node], layers + [done]) && |stack| == |layers|
    ensures Layers(g, stack, layers)
  {
    hide Layer;
    forall k | 0 <= k < |stack| ensures Layer(g, stack[..k], stack[k], layers[k]) {
      assert (stack + [node])[..k] == stack[..k];
      assert Layer(g, (stack + [node])[..k], (stack + [node])[k], (layers + [done])[k]);
    }
  }

  /** A simple path that has left `below` into `done` stays in `done`. */
  lemma {:induction false} StaysDone(g: Edges, below: seq<Key>, node: Key, done: set<Key>, q: seq<Key>, m: nat)
    requires Layer(g, below, node, done) && IsPath(g, q) && NoDuplicates(q)
    requires |below| <= m < |q| && q[..|below|] == below && q[|below|] in done
    ensures q[m] in done
  {
    hide Precedes;
    if m > |below| {
      StaysDone(g, below, node, done, q, m - 1);
      assert HasEdge(g, q[m - 1], q[m - 1 + 1]);
      NotBelow(below, q, m);
    }
  }

  lemma NotBelow(below: seq<Key>, q: seq<Key>, m: nat)
    requires NoDuplicates(q) && |below| <= m < |q| && q[..|below|] == below
    ensures q[m] !in below
  {
    forall i | 0 <= i < |below| ensures below[i] != q[m] {
      assert q[..|below|][i] == q[i];
    }
  }

  /** Two different simple paths to one node part somewhere. */
  lemma {:induction false} Part(p: seq<Key>, q: seq<Key>, k: nat) returns (m: nat)
    requires NoDuplicates(p) && NoDuplicates(q) && p != [] && q != [] && p[|p| - 1] == q[|q| - 1] && p != q
    requires k <= |p| && k <= |q| && p[..k] == q[..k]
    ensures m < |p| && m < |q| && p[..m] == q[..m] && p[m] != q[m]
    decreases |p| - k
  {
    if k == |p| || k == |q| {
      assert false by {
        PrefixesEnd(p, q, k);
      }
    } else if p[k] != q[k] {
      m := k;
    } else {
      assert p[..k + 1] == p[..k] + [p[k]] && q[..k + 1] == q[..k] + [q[k]];
      m := Part(p, q, k + 1);
    }
  }

  lemma PrefixesEnd(p: seq<Key>, q: seq<Key>, k: nat)
    requires NoDuplicates(p) && NoDuplicates(q) && p != [] && q != [] && p[|p| - 1] == q[|q| - 1]
    requires k <= |p| && k <= |q| && p[..k] == q[..k] && (k == |p| || k == |q|)
    ensures p == q
  {
    assert p[..|p|] == p && q[..|q|] == q;
    assert k > 0 ==> p[..k][k - 1] == p[k - 1] && q[..k][k - 1] == q[k - 1];
  }

  lemma WaysCompare(g: Edges, p: seq<Key>, q: seq<Key>, m: nat)
    requires IsPath(g, p) && IsPath(g, q) && m < |p| && m < |q| && p[..m] == q[..m] && p[m] != q[m]
    ensures Precedes(g, p[..m], p[m], q[m]) || Precedes(g, p[..m], q[m], p[m])
  {
    if m > 0 {
      SharedPrefix(p, q, m - 1, m);
      assert p[..m][m - 1] == p[m - 1];
      assert HasEdge(g, p[m - 1], p[m - 1 + 1]) && HasEdge(g, q[m - 1], q[m - 1 + 1]);
      SoonerOneWay(g, p[m - 1], p[m], q[m]);
    }
  }

  lemma {:induction false} PathNodes(g: Edges, q: seq<Key>, m: nat)
    requires WellFormed(g) && IsPath(g, q) && q[0] in g && m < |q|
    ensures q[m] in g
  {
    if m > 0 {
      PathNodes(g, q, m - 1);
      assert HasEdge(g, q[m - 1], q[m - 1 + 1]);
    }
  }

  /** No other simple path to the top of the stack comes before the stack. */
  lemma StackBeats(g: Edges, stack: seq<Key>, layers: seq<set<Key>>, u: Key, q: seq<Key>)
    requires WellFormed(g) && Layers(g, stack, layers) && SimplePathTo(g, stack, u)
    requires forall k :: 0 <= k < |layers| ==> u !in layers[k]
    requires SimplePathTo(g, q, u) && q != stack
    ensures Before(g, stack, q)
  {
    hide Precedes, Layer, WellFormed;
    assert stack[..0] == q[..0];
    var m := Part(stack, q, 0);
    WaysCompare(g, stack, q, m);
    assert Layer(g, stack[..m], stack[m], layers[m]);
    if Precedes(g, stack[..m], q[m], stack[m]) {
      PathNodes(g, q, m);
      NotBelow(stack[..m], q, m);
      TurnedToBefore(g, stack[..m], stack[m], layers[m], q[m]);
      StaysDone(g, stack[..m], stack[m], layers[m], q, |q| - 1);
      assert false;
    }
    assert PartsAt(g, stack, q, m);
  }

  lemma TurnedToBefore(g: Edges, below: seq<Key>, node: Key, done: set<Key>, x: Key)
    requires Layer(g, below, node, done) && x in g && Precedes(g, below, x, node) && x !in below
    ensures x in done
  {
  }

  lemma StackIsFirst(g: Edges, stack: seq<Key>, layers: seq<set<Key>>, u: Key)
    requires WellFormed(g) && Layers(g, stack, layers) && SimplePathTo(g, stack, u)
    requires forall k :: 0 <= k < |layers| ==> u !in layers[k]
    ensures FirstPath(g, u, stack)
  {
    hide Before, Layers, WellFormed, SimplePathTo;
    forall q | SimplePathTo(g, q, u) ensures q == stack || Before(g, stack, q) {
      if q != stack {
        StackBeats(g, stack, layers, u, q);
      }
    }
  }

  // ----- simple paths -----

  lemma Shortcut(g: Edges, p: seq<Key>, i: nat, j: nat)
    requires IsPath(g, p) && i < j < |p| && p[i] == p[j]
    ensures var q := p[..i] + p[j..];
            IsPath(g, q) && |q| < |p| && q[0] == p[0] && q[|q| - 1] == p[|p| - 1]
  {
    var q := p[..i] + p[j..];
    forall k | 0 <= k < |q| - 1 ensures HasEdge(g, q[k], q[k + 1]) {
      if k < i {
        assert HasEdge(g, p[k], p[k + 1]);
      } else {
        assert HasEdge(g, p[k + j - i], p[k + j - i + 1]);
      }
    }
  }

  /** Whatever can be reached can be reached along a simple path. */
  lemma {:induction false} SimplePathExists(g: Edges, p: seq<Key>) returns (q: seq<Key>)
    requires IsPath(g, p)
    ensures IsPath(g, q) && NoDuplicates(q) && q[0] == p[0] && q[|q| - 1] == p[|p| - 1]
    decreases |p|
  {
    if NoDuplicates(p) {
      q := p;
    } else {
      var i, j :| 0 <= i < j < |p| && p[i] == p[j];
      Shortcut(g, p, i, j);
      q := SimplePathExists(g, p[..i] + p[j..]);
    }
  }

  /** The first path to a node starts at the least key it can be reached from. */
  lemma FirstPathStartsLeast(g: Edges, u: Key, p: seq<Key>, r: Key)
    requires FirstPath(g, u, p) && r in g && Reaches(g, r, u)
    ensures p[0] <= r
  {
    var long :| PathFromTo(g, long, r, u);
    var q := SimplePathExists(g, long);
    assert SimplePathTo(g, q, u);
    if q != p {
      var k: nat :| PartsAt(g, p, q, k);
      if k > 0 {
        SharedPrefix(p, q, 0, k);
      }
    }
  }
}

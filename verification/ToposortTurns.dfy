/** The order `toposort` gives nodes that are ready: by what freed them, and by key among those freed together. */
module ToposortTurns {
  import opened GraphModel
  import opened KeyOrder
  import opened Graphs
  import opened Toposort

  /** All dependencies of `n` are among the first `a` of the line, and the last of these is one. */
  ghost predicate FreedAt(g: Edges, line: seq<Key>, n: Key, a: nat) {
    && a <= |line| && (forall d :: HasEdge(g, n, d) ==> d in line[..a])
    && (a == 0 || HasEdge(g, n, line[a - 1]))
  }

  /** Whatever is freed earlier comes earlier, and what is freed together comes by key. */
  ghost predicate InTurn(g: Edges, line: seq<Key>) {
    forall i, j, a, b :: 0 <= i < j < |line| && FreedAt(g, line, line[i], a) && FreedAt(g, line, line[j], b) ==>
      a < b || (a == b && line[i] < line[j])
  }

  ghost predicate FreedWithin(g: Edges, line: seq<Key>, n: Key, k: nat) {
    exists a: nat :: a <= k && FreedAt(g, line, n, a)
  }

  /** Each node in line was freed by one of the first `k`. */
  ghost predicate FreedBy(g: Edges, line: seq<Key>, k: nat) {
    forall i :: 0 <= i < |line| ==> FreedWithin(g, line, line[i], k)
  }

  lemma FreedOnce(g: Edges, line: seq<Key>, n: Key, a: nat, b: nat)
    requires NoDuplicates(line) && FreedAt(g, line, n, a) && FreedAt(g, line, n, b)
    ensures a == b
  {
    if a > 0 {
      AmongFirst(line, b, a - 1);
    }
    if b > 0 {
      AmongFirst(line, a, b - 1);
    }
  }

  lemma AmongFirst(line: seq<Key>, a: nat, k: nat)
    requires NoDuplicates(line) && a <= |line| && k < |line| && line[k] in line[..a]
    ensures k < a
  {
  }

  lemma FreedInLonger(g: Edges, line: seq<Key>, more: seq<Key>, n: Key, a: nat)
    requires FreedAt(g, line, n, a)
    ensures FreedAt(g, line + more, n, a)
  {
    assert (line + more)[..a] == line[..a];
  }

  /** What ordering `line[k]` releases was freed by it. */
  lemma ReleasedIsFreed(g: Edges, line: seq<Key>, k: nat, more: seq<Key>, n: Key)
    requires k < |line| && n in g && more == Released(EdgeRelation(g), Members(line[..k]), line[k]) && n in more
    ensures FreedAt(g, line + more, n, k + 1)
  {
    var next := line + more;
    assert next[..k + 1] == line[..k] + [line[k]];
    forall d | HasEdge(g, n, d) ensures d in next[..k + 1] {
      assert d in EdgeRelation(g)[n];
    }
  }

  /** How the nodes of the longer line were freed: those in line by the first `k`, the others by the next. */
  lemma FreedWhen(g: Edges, line: seq<Key>, k: nat, more: seq<Key>, i: nat, a: nat)
    requires k < |line| && NoDuplicates(line + more) && FreedBy(g, line, k)
    requires more == Released(EdgeRelation(g), Members(line[..k]), line[k]) && forall n :: n in more ==> n in g
    requires i < |line + more| && FreedAt(g, line + more, (line + more)[i], a)
    ensures if i < |line| then a <= k && FreedAt(g, line, line[i], a) else a == k + 1
  {
    hide FreedAt, Released, NoDuplicates;
    var n := (line + more)[i];
    if i < |line| {
      assert FreedWithin(g, line, line[i], k);
      var b: nat :| b <= k && FreedAt(g, line, line[i], b);
      FreedInLonger(g, line, more, n, b);
      FreedOnce(g, line + more, n, a, b);
    } else {
      assert n == more[i - |line|] && n in more;
      ReleasedIsFreed(g, line, k, more, n);
      FreedOnce(g, line + more, n, a, k + 1);
    }
  }

  lemma TurnStep(g: Edges, line: seq<Key>, k: nat, more: seq<Key>)
    requires k < |line| && NoDuplicates(line + more) && FreedBy(g, line, k) && InTurn(g, line)
    requires more == Released(EdgeRelation(g), Members(line[..k]), line[k]) && forall n :: n in more ==> n in g
    ensures FreedBy(g, line + more, k + 1) && InTurn(g, line + more)
  {
    hide FreedAt, NoDuplicates, EdgeRelation, Members;
    var next := line + more;
    forall i | 0 <= i < |next| ensures FreedWithin(g, next, next[i], k + 1) {
      if i < |line| {
        assert FreedWithin(g, line, line[i], k);
        var b: nat :| b <= k && FreedAt(g, line, line[i], b);
        FreedInLonger(g, line, more, line[i], b);
        assert next[i] == line[i];
      } else {
        assert next[i] == more[i - |line|] && next[i] in more;
        ReleasedIsFreed(g, line, k, more, next[i]);
      }
    }
    forall i, j, a, b | 0 <= i < j < |next| && FreedAt(g, next, next[i], a) && FreedAt(g, next, next[j], b)
      ensures a < b || (a == b && next[i] < next[j])
    {
      FreedWhen(g, line, k, more, i, a);
      FreedWhen(g, line, k, more, j, b);
      if |line| <= i {
        assert next[i] == more[i - |line|] && next[j] == more[j - |line|];
      }
    }
  }

  lemma LineIsNodes(g: Edges, line: seq<Key>, k: nat)
    requires InLine(EdgeRelation(g), line, k)
    ensures NoDuplicates(line) && forall n :: n in line ==> n in g
  {
  }

  lemma {:induction false} TurnsFrom(g: Edges, line: seq<Key>, k: nat)
    requires InLine(EdgeRelation(g), line, k) && FreedBy(g, line, k) && InTurn(g, line)
    ensures var ready := KahnFrom(EdgeRelation(g), line, k);
            InTurn(g, ready) && FreedBy(g, ready, |ready|)
    decreases |EdgeRelation(g)| - k
  {
    hide InLine, InTurn, FreedBy, EdgeRelation, Released;
    var r := EdgeRelation(g);
    InLineBound(r, line, k);
    LineLength(r, line, k);
    if k < |line| {
      var more := Released(r, Members(line[..k]), line[k]);
      InLineStep(r, line, k);
      LineIsNodes(g, line + more, k + 1);
      TurnStep(g, line, k, more);
      TurnsFrom(g, line + more, k + 1);
    }
  }

  lemma LineLength(r: Relation, line: seq<Key>, k: nat)
    requires InLine(r, line, k)
    ensures k <= |line|
  {
  }

  lemma SeedsAreFree(g: Edges)
    ensures FreedBy(g, Seeds(EdgeRelation(g)), 0) && InTurn(g, Seeds(EdgeRelation(g)))
  {
    var line := Seeds(EdgeRelation(g));
    forall i | 0 <= i < |line| ensures FreedWithin(g, line, line[i], 0) {
      SeedIsFree(g, line, line[i]);
    }
    forall i, a: nat | 0 <= i < |line| && FreedAt(g, line, line[i], a) ensures a == 0 {
      SeedIsFree(g, line, line[i]);
    }
  }

  lemma SeedIsFree(g: Edges, line: seq<Key>, n: Key)
    requires n in Seeds(EdgeRelation(g))
    ensures FreedAt(g, line, n, 0) && forall d :: !HasEdge(g, n, d)
  {
    assert EdgeRelation(g)[n] == {};
    forall d ensures d in EdgeRelation(g)[n] <==> HasEdge(g, n, d) {
    }
  }

  /** Ready nodes come first in, first out: by the last of their dependencies, and then by key. */
  lemma ReadyInTurn(g: Edges)
    requires WellFormed(g)
    ensures Closed(EdgeRelation(g))
    ensures var ready := KahnOrder(EdgeRelation(g));
            InTurn(g, ready) && FreedBy(g, ready, |ready|)
  {
    hide InLine, InTurn, KahnFrom, EdgeRelation, Seeds, FreedBy;
    RelationClosed(g);
    SeedsInLine(EdgeRelation(g));
    SeedsAreFree(g);
    TurnsFrom(g, Seeds(EdgeRelation(g)), 0);
  }
}

/** Keys and the order a B-tree map lists them in. */
module KeyOrder {

  type Key = nat

  ghost predicate Nondecreasing(s: seq<nat>) {
    forall i, j :: 0 <= i <= j < |s| ==> s[i] <= s[j]
  }

  ghost predicate Ascending(s: seq<Key>) {
    forall i, j :: 0 <= i < j < |s| ==> s[i] < s[j]
  }

  ghost predicate IsLeast(m: Key, s: set<Key>) {
    m in s && forall x :: x in s ==> m <= x
  }

  lemma {:induction false} LeastExists(s: set<Key>, x: Key) returns (m: Key)
    requires x in s
    ensures IsLeast(m, s)
  {
    m := x;
    if y :| y in s && y < x {
      m := LeastExists(s - {x}, y);
      assert s == s - {x} + {x};
    }
  }

  lemma SomeMember(s: set<Key>)
    requires s != {}
    ensures exists x :: x in s
  {
    if forall x :: x !in s {
      assert false;
    }
  }

  function Least(s: set<Key>): (m: Key)
    requires s != {}
    ensures IsLeast(m, s)
  {
    assert exists m :: m in s && forall x :: x in s ==> m <= x by {
      SomeMember(s);
      var x :| x in s;
      var m := LeastExists(s, x);
      assert IsLeast(m, s);
    }
    var m :| m in s && forall x :: x in s ==> m <= x;
    m
  }

  /** The members of `s` in key order, as a B-tree map iterates its keys. */
  function InKeyOrder(s: set<Key>): (r: seq<Key>)
    ensures Ascending(r)
    ensures forall k :: k in r <==> k in s
    ensures |r| == |s|
  {
    if s == {} then []
    else
      var m := Least(s);
      [m] + InKeyOrder(s - {m})
  }

  /** An ascending listing is determined by its members. */
  lemma {:induction false} AscendingUnique(a: seq<Key>, b: seq<Key>)
    requires Ascending(a) && Ascending(b)
    requires forall k :: k in a <==> k in b
    ensures a == b
  {
    assert forall i :: 0 <= i < |a| ==> a[i] in a;
    assert forall i :: 0 <= i < |b| ==> b[i] in b;
    if a != [] && b != [] {
      assert a[0] == b[0];
      forall k ensures k in a[1..] <==> k in b[1..] {
        if k in a[1..] {
          assert k in a && k > a[0];
        }
        if k in b[1..] {
          assert k in b && k > b[0];
        }
      }
      AscendingUnique(a[1..], b[1..]);
    }
  }
}

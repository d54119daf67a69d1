/** Applying a repair: edits made from the end of the text backward. */
module Fix {
  import opened Wrappers

  /** Replace the text from `start` up to `end`. */
  datatype Edit = Edit(start: nat, end: nat, replacement: string)

  predicate Insertion(e: Edit) {
    e.start == e.end
  }

  /** One edit made in place. A range outside the text aborts. */
  function Replaced(text: string, e: Edit): Option<string> {
    if e.start <= e.end <= |text| then Some(text[..e.start] + e.replacement + text[e.end..]) else None
  }

  function AppliedInTurn(text: string, edits: seq<Edit>): Option<string> {
    if edits == [] then Some(text)
    else
      match AppliedInTurn(text, edits[..|edits| - 1])
      case None => None
      case Some(t) => Replaced(t, edits[|edits| - 1])
  }

  // ----- the stable sort -----

  function Inserted(e: Edit, sorted: seq<Edit>): (r: seq<Edit>)
    ensures multiset(r) == multiset(sorted) + multiset{e}
  {
    if sorted == [] || sorted[0].start <= e.start then [e] + sorted
    else
      assert sorted == [sorted[0]] + sorted[1..];
      [sorted[0]] + Inserted(e, sorted[1..])
  }

  /** By descending start, equal starts in their given order. */
  function BackToFront(edits: seq<Edit>): (r: seq<Edit>)
    ensures multiset(r) == multiset(edits)
  {
    if edits == [] then []
    else
      assert edits == [edits[0]] + edits[1..];
      Inserted(edits[0], BackToFront(edits[1..]))
  }

  ghost predicate Descending(edits: seq<Edit>) {
    forall i, j :: 0 <= i < j < |edits| ==> edits[i].start >= edits[j].start
  }

  lemma {:induction false} InsertedDescends(e: Edit, sorted: seq<Edit>)
    requires Descending(sorted)
    ensures Descending(Inserted(e, sorted))
  {
    if sorted != [] && sorted[0].start > e.start {
      InsertedDescends(e, sorted[1..]);
      var rest := Inserted(e, sorted[1..]);
      forall j | 0 <= j < |rest| ensures rest[j].start <= sorted[0].start {
        assert rest[j] in multiset(rest);
        assert rest[j] == e || rest[j] in sorted[1..];
      }
    }
  }

  lemma {:induction false} BackToFrontDescends(edits: seq<Edit>)
    ensures Descending(BackToFront(edits))
  {
    if edits != [] {
      BackToFrontDescends(edits[1..]);
      InsertedDescends(edits[0], BackToFront(edits[1..]));
    }
  }

  /** The edit, if it starts at `p`. */
  function Only(e: Edit, p: nat): seq<Edit> {
    if e.start == p then [e] else []
  }

  /** The edits that start at `p`, in list order. */
  function AtStart(edits: seq<Edit>, p: nat): seq<Edit> {
    if edits == [] then [] else AtStart(edits[..|edits| - 1], p) + Only(edits[|edits| - 1], p)
  }

  lemma AtStartSnoc(edits: seq<Edit>, e: Edit, p: nat)
    ensures AtStart(edits + [e], p) == AtStart(edits, p) + Only(e, p)
  {
    assert (edits + [e])[..|edits|] == edits;
  }

  lemma {:induction false} AtStartCons(e: Edit, edits: seq<Edit>, p: nat)
    ensures AtStart([e] + edits, p) == Only(e, p) + AtStart(edits, p)
  {
    if edits == [] {
      assert [e] + edits == [] + [e];
      AtStartSnoc([], e, p);
    } else {
      var init, last := edits[..|edits| - 1], edits[|edits| - 1];
      assert [e] + edits == ([e] + init) + [last] && edits == init + [last];
      hide AtStart, Only;
      AtStartSnoc([e] + init, last, p);
      AtStartSnoc(init, last, p);
      AtStartCons(e, init, p);
      RegroupedEdits(Only(e, p), AtStart(init, p), Only(last, p));
    }
  }

  lemma RegroupedEdits(a: seq<Edit>, b: seq<Edit>, c: seq<Edit>)
    ensures a + b + c == a + (b + c)
  {
  }

  /** Just the edits that start at `p` are listed. */
  lemma {:induction false} AtStartMembers(edits: seq<Edit>, p: nat)
    ensures forall e :: e in AtStart(edits, p) <==> e in edits && e.start == p
  {
    if edits != [] {
      AtStartMembers(edits[..|edits| - 1], p);
      assert edits == edits[..|edits| - 1] + [edits[|edits| - 1]];
    }
  }

  lemma NoneAtStart(edits: seq<Edit>, p: nat)
    requires forall e :: e in edits ==> e.start != p
    ensures AtStart(edits, p) == []
  {
    AtStartMembers(edits, p);
    if AtStart(edits, p) != [] {
      assert AtStart(edits, p)[0] !in edits;
      assert false;
    }
  }

  lemma {:induction false} InsertedIsStable(e: Edit, sorted: seq<Edit>, p: nat)
    ensures AtStart(Inserted(e, sorted), p) == Only(e, p) + AtStart(sorted, p)
  {
    hide AtStart;
    if sorted == [] || sorted[0].start <= e.start {
      AtStartCons(e, sorted, p);
    } else {
      var head, rest := sorted[0], sorted[1..];
      InsertedIsStable(e, rest, p);
      AtStartCons(head, Inserted(e, rest), p);
      assert sorted == [head] + rest;
      AtStartCons(head, rest, p);
      OneOrOther(head, e, p, AtStart(rest, p));
    }
  }

  lemma OneOrOther(a: Edit, b: Edit, p: nat, rest: seq<Edit>)
    requires a.start != b.start
    ensures Only(a, p) + (Only(b, p) + rest) == Only(b, p) + (Only(a, p) + rest)
  {
  }

  lemma AtStartHead(edits: seq<Edit>, p: nat)
    requires edits != []
    ensures AtStart(edits, p) == Only(edits[0], p) + AtStart(edits[1..], p)
  {
    hide AtStart;
    assert edits == [edits[0]] + edits[1..];
    AtStartCons(edits[0], edits[1..], p);
  }

  /** The sort is stable: edits with one start keep their list order. */
  lemma {:induction false} BackToFrontIsStable(edits: seq<Edit>, p: nat)
    ensures AtStart(BackToFront(edits), p) == AtStart(edits, p)
  {
    if edits != [] {
      hide AtStart, Inserted, Only;
      BackToFrontIsStable(edits[1..], p);
      InsertedIsStable(edits[0], BackToFront(edits[1..]), p);
      AtStartHead(edits, p);
    }
  }

  // ----- what edits at one start do to the text behind it -----

  function Over(t: string, e: Edit): string {
    if e.start <= e.end <= e.start + |t| then e.replacement + t[e.end - e.start..] else t
  }

  /** Edits at the front of `t`, one over the other. */
  function Stacked(t: string, group: seq<Edit>): string {
    if group == [] then t else Over(Stacked(t, group[..|group| - 1]), group[|group| - 1])
  }

  lemma StackedSnoc(t: string, group: seq<Edit>, e: Edit)
    ensures Stacked(t, group + [e]) == Over(Stacked(t, group), e)
  {
    assert (group + [e])[..|group|] == group;
  }

  /** The text from `p` on once every edit that starts there or later has been made. */
  function Edited(source: string, edits: seq<Edit>, p: nat): string
    decreases |source| - p, 1
  {
    Stacked(Behind(source, edits, p), AtStart(edits, p))
  }

  /** The same before the edits that start at `p` themselves. */
  function Behind(source: string, edits: seq<Edit>, p: nat): string
    decreases |source| - p, 0
  {
    if p < |source| then [source[p]] + Edited(source, edits, p + 1) else ""
  }

  ghost predicate InBounds(edits: seq<Edit>, source: string) {
    forall e :: e in edits ==> e.start <= e.end <= |source|
  }

  predicate Apart(e: Edit, f: Edit) {
    e.end <= f.start || f.end <= e.start
  }

  ghost predicate Disjoint(edits: seq<Edit>) {
    forall i, j :: 0 <= i < j < |edits| ==> Apart(edits[i], edits[j])
  }

  /** Edits that start earlier do not matter. */
  lemma {:induction false} EditedAhead(source: string, a: seq<Edit>, b: seq<Edit>, p: nat)
    requires forall q :: q >= p ==> AtStart(a, q) == AtStart(b, q)
    ensures Edited(source, a, p) == Edited(source, b, p)
    decreases |source| - p
  {
    hide AtStart, Stacked;
    if p < |source| {
      EditedAhead(source, a, b, p + 1);
    }
  }

  /** Where no edit starts the source is kept. */
  lemma {:induction false} EditedGap(source: string, edits: seq<Edit>, a: nat, b: nat)
    requires a <= b <= |source| && forall q :: a <= q < b ==> AtStart(edits, q) == []
    ensures Edited(source, edits, a) == source[a..b] + Edited(source, edits, b)
    decreases b - a
  {
    if a < b {
      EditedGap(source, edits, a + 1, b);
      HeadOff(source, a, b);
      Regrouped([source[a]], source[a + 1..b], Edited(source, edits, b));
    } else {
      assert source[a..b] == "";
    }
  }

  lemma HeadOff(source: string, p: nat, s: nat)
    requires p < s <= |source|
    ensures source[p..s] == [source[p]] + source[p + 1..s]
  {
  }

  lemma Regrouped(a: string, b: string, c: string)
    ensures a + b + c == a + (b + c)
  {
  }

  /** Text with no edit inside, behind an offset whose own edits are still to be made. */
  lemma UneditedRun(source: string, edits: seq<Edit>, p: nat, end: nat)
    requires p < end <= |source| && forall q :: p < q < end ==> AtStart(edits, q) == []
    ensures [source[p]] + Edited(source, edits, p + 1) == source[p..end] + Edited(source, edits, end)
  {
    EditedGap(source, edits, p + 1, end);
    HeadOff(source, p, end);
    Regrouped([source[p]], source[p + 1..end], Edited(source, edits, end));
  }

  lemma {:induction false} InsertionsGrow(t: string, group: seq<Edit>)
    requires forall e :: e in group ==> Insertion(e)
    ensures |Stacked(t, group)| >= |t|
  {
    if group != [] {
      assert group[|group| - 1] in group;
      InsertionsGrow(t, group[..|group| - 1]);
    }
  }

  /** The edit comes before all of `done`, and only insertions share its start if it takes text away. */
  ghost predicate Precedes(e: Edit, done: seq<Edit>) {
    forall f :: f in done ==> f.start >= e.end || (f.start == e.start && Insertion(f))
  }

  lemma RoomFor(source: string, done: seq<Edit>, e: Edit)
    requires e.start <= e.end <= |source| && Precedes(e, done)
    ensures e.end - e.start <= |Edited(source, done, e.start)|
  {
    hide Stacked;
    if !Insertion(e) {
      forall q | e.start < q < e.end ensures AtStart(done, q) == [] {
        NoneAtStart(done, q);
      }
      AtStartMembers(done, e.start);
      hide AtStart;
      UneditedRun(source, done, e.start, e.end);
      InsertionsGrow(source[e.start..e.end] + Edited(source, done, e.end), AtStart(done, e.start));
    }
  }

  lemma EditedSnoc(source: string, done: seq<Edit>, e: Edit)
    ensures Edited(source, done + [e], e.start) == Over(Edited(source, done, e.start), e)
  {
    hide Stacked, AtStart, Over;
    BehindSame(source, done, e);
    AtStartSnoc(done, e, e.start);
    StackedSnoc(Behind(source, done, e.start), AtStart(done, e.start), e);
  }

  lemma BehindSame(source: string, done: seq<Edit>, e: Edit)
    ensures Behind(source, done + [e], e.start) == Behind(source, done, e.start)
  {
    hide Stacked, AtStart;
    forall q | q > e.start ensures AtStart(done + [e], q) == AtStart(done, q) {
      AtStartSnoc(done, e, q);
    }
    EditedAhead(source, done + [e], done, e.start + 1);
  }

  lemma CutText(source: string, tail: string, s: nat, end: nat)
    requires s <= end && s <= |source| && end - s <= |tail|
    ensures (source[..s] + tail)[..s] == source[..s] && (source[..s] + tail)[end..] == tail[end - s..]
  {
  }

  lemma MakeOne(source: string, done: seq<Edit>, e: Edit)
    requires e.start <= e.end <= |source| && Precedes(e, done)
    ensures Replaced(source[..e.start] + Edited(source, done, e.start), e) ==
            Some(source[..e.start] + Edited(source, done + [e], e.start))
  {
    hide Edited;
    var tail := Edited(source, done, e.start);
    RoomFor(source, done, e);
    EditedSnoc(source, done, e);
    CutText(source, tail, e.start, e.end);
    Regrouped(source[..e.start], e.replacement, tail[e.end - e.start..]);
  }

  ghost predicate StartFrom(edits: seq<Edit>, p: nat) {
    forall e :: e in edits ==> e.start >= p
  }

  lemma LastPrecedes(edits: seq<Edit>, source: string)
    requires edits != [] && Descending(edits) && InBounds(edits, source) && Disjoint(edits)
    ensures var rest, e := edits[..|edits| - 1], edits[|edits| - 1];
            && Descending(rest) && InBounds(rest, source) && Disjoint(rest)
            && e.start <= e.end <= |source| && Precedes(e, rest) && edits == rest + [e]
            && StartFrom(rest, e.start) && StartFrom(edits, e.start)
  {
    var n := |edits| - 1;
    assert edits[n] in edits;
    forall f | f in edits[..n] ensures f.start >= edits[n].end || (f.start == edits[n].start && Insertion(f)) {
      var k :| 0 <= k < n && edits[k] == f;
      assert Apart(edits[k], edits[n]) && edits[k] in edits;
    }
  }

  lemma {:induction false} NothingEdited(source: string, p: nat)
    requires p <= |source|
    ensures Edited(source, [], p) == source[p..]
  {
    EditedGap(source, [], p, |source|);
  }

  /** Edits made in descending order leave what stacking them at their starts leaves. */
  lemma {:induction false} InTurnStacks(edits: seq<Edit>, source: string, p: nat)
    requires Descending(edits) && InBounds(edits, source) && Disjoint(edits)
    requires p <= |source| && StartFrom(edits, p)
    ensures AppliedInTurn(source, edits) == Some(source[..p] + Edited(source, edits, p))
  {
    hide Edited, Replaced, Descending, Disjoint, InBounds, AtStart, StartFrom, Precedes;
    if edits == [] {
      NothingEdited(source, p);
      Prefixes(source, p, |source|);
      assert source[p..|source|] == source[p..] && source[..|source|] == source;
    } else {
      var rest, e := edits[..|edits| - 1], edits[|edits| - 1];
      FirstAtLeast(edits, p);
      LastPrecedes(edits, source);
      InTurnStacks(rest, source, e.start);
      MakeOne(source, rest, e);
      StartsFrom(edits, p, e.start);
      EditedGap(source, edits, p, e.start);
      Prefixes(source, p, e.start);
      Regrouped(source[..p], source[p..e.start], Edited(source, edits, e.start));
    }
  }

  lemma FirstAtLeast(edits: seq<Edit>, p: nat)
    requires edits != [] && StartFrom(edits, p)
    ensures edits[|edits| - 1].start >= p
  {
    assert edits[|edits| - 1] in edits;
  }

  lemma Prefixes(source: string, p: nat, s: nat)
    requires p <= s <= |source|
    ensures source[..p] + source[p..s] == source[..s]
  {
  }

  lemma StartsFrom(edits: seq<Edit>, p: nat, s: nat)
    requires StartFrom(edits, s)
    ensures forall q :: p <= q < s ==> AtStart(edits, q) == []
  {
    forall q | p <= q < s ensures AtStart(edits, q) == [] {
      NoneAtStart(edits, q);
    }
  }

  lemma {:induction false} Rearranged(a: seq<Edit>, b: seq<Edit>, source: string)
    requires multiset(a) == multiset(b) && InBounds(a, source) && Disjoint(a)
    ensures InBounds(b, source) && Disjoint(b)
  {
    assert forall e :: e in a <==> e in multiset(a);
    assert forall e :: e in b <==> e in multiset(b);
    forall i, j | 0 <= i < j < |b| ensures Apart(b[i], b[j]) {
      TwoInBoth(a, b, i, j);
    }
  }

  function Others(edits: seq<Edit>, k: nat): seq<Edit>
    requires k < |edits|
  {
    edits[..k] + edits[k + 1..]
  }

  lemma OthersCount(edits: seq<Edit>, k: nat)
    requires k < |edits|
    ensures multiset(Others(edits, k)) == multiset(edits) - multiset{edits[k]}
  {
    assert edits == edits[..k] + [edits[k]] + edits[k + 1..];
  }

  lemma OthersAt(edits: seq<Edit>, k: nat, e: Edit) returns (l: nat)
    requires k < |edits| && e in Others(edits, k)
    ensures l < |edits| && l != k && edits[l] == e
  {
    var m :| 0 <= m < |Others(edits, k)| && Others(edits, k)[m] == e;
    l := if m < k then m else m + 1;
  }

  /** Two entries of one listing are two entries of any rearrangement of it. */
  lemma TwoInBoth(a: seq<Edit>, b: seq<Edit>, i: nat, j: nat)
    requires multiset(a) == multiset(b) && i < j < |b|
    ensures exists k, l :: 0 <= k < |a| && 0 <= l < |a| && k != l && a[k] == b[i] && a[l] == b[j]
  {
    assert b[i] in multiset(b);
    var k :| 0 <= k < |a| && a[k] == b[i];
    OthersCount(a, k);
    OthersCount(b, i);
    assert Others(b, i)[j - 1] == b[j];
    assert b[j] in multiset(Others(b, i));
    var l := OthersAt(a, k, b[j]);
  }

  /** What applying leaves, for every list of disjoint edits in bounds, ties and all. */
  lemma AppliedIsEdited(edits: seq<Edit>, source: string)
    requires InBounds(edits, source) && Disjoint(edits)
    ensures AppliedInTurn(source, BackToFront(edits)) == Some(Edited(source, edits, 0))
  {
    hide AppliedInTurn, BackToFront, Edited, InBounds, Disjoint;
    var sorted := BackToFront(edits);
    Rearranged(edits, sorted, source);
    BackToFrontDescends(edits);
    InTurnStacks(sorted, source, 0);
    forall q ensures AtStart(sorted, q) == AtStart(edits, q) {
      BackToFrontIsStable(edits, q);
    }
    EditedAhead(source, sorted, edits, 0);
    assert source[..0] + Edited(source, edits, 0) == Edited(source, edits, 0);
  }

  /** Only the order among edits with one start can matter. */
  lemma OnlyTiesMatter(a: seq<Edit>, b: seq<Edit>, source: string)
    requires multiset(a) == multiset(b) && InBounds(a, source) && Disjoint(a)
    requires forall q :: AtStart(a, q) == AtStart(b, q)
    ensures AppliedInTurn(source, BackToFront(a)) == AppliedInTurn(source, BackToFront(b))
  {
    hide AppliedInTurn, BackToFront, Edited, InBounds, Disjoint, AtStart;
    Rearranged(a, b, source);
    AppliedIsEdited(a, source);
    AppliedIsEdited(b, source);
    EditedAhead(source, a, b, 0);
  }

  ghost predicate DistinctStarts(edits: seq<Edit>) {
    forall i, j :: 0 <= i < j < |edits| ==> edits[i].start != edits[j].start
  }

  lemma {:induction false} AtMostOne(edits: seq<Edit>, p: nat)
    requires DistinctStarts(edits)
    ensures |AtStart(edits, p)| <= 1
  {
    if edits != [] {
      var init, last := edits[..|edits| - 1], edits[|edits| - 1];
      AtMostOne(init, p);
      AtStartMembers(init, p);
      if AtStart(init, p) != [] {
        assert AtStart(init, p)[0] in init;
        var k :| 0 <= k < |init| && init[k] == AtStart(init, p)[0];
        assert edits[k].start != last.start;
      }
    }
  }

  /** With distinct starts the order of the edit list does not matter. */
  lemma OrderDoesNotMatter(a: seq<Edit>, b: seq<Edit>, source: string)
    requires multiset(a) == multiset(b) && InBounds(a, source) && Disjoint(a) && DistinctStarts(a)
    ensures AppliedInTurn(source, BackToFront(a)) == AppliedInTurn(source, BackToFront(b))
  {
    hide AppliedInTurn, BackToFront, AtStart;
    assert DistinctStarts(b) by {
      forall i, j | 0 <= i < j < |b| ensures b[i].start != b[j].start {
        TwoInBoth(a, b, i, j);
      }
    }
    forall q ensures AtStart(a, q) == AtStart(b, q) {
      AtMostOne(a, q);
      AtMostOne(b, q);
      AtStartMembers(a, q);
      AtStartMembers(b, q);
      SameSingle(a, b, AtStart(a, q), AtStart(b, q), q);
    }
    OnlyTiesMatter(a, b, source);
  }

  lemma SameSingle(a: seq<Edit>, b: seq<Edit>, x: seq<Edit>, y: seq<Edit>, q: nat)
    requires multiset(a) == multiset(b) && |x| <= 1 && |y| <= 1
    requires forall e :: e in x <==> e in a && e.start == q
    requires forall e :: e in y <==> e in b && e.start == q
    ensures x == y
  {
    assert forall e :: e in a <==> e in multiset(a);
    assert forall e :: e in b <==> e in multiset(b);
    if x != [] {
      assert x[0] in x && x[0] in y;
    }
    if y != [] {
      assert y[0] in y && y[0] in x;
    }
  }

  // ----- the splice -----

  /** The replacements, the last listed first. */
  function Texts(group: seq<Edit>): string {
    if group == [] then "" else group[|group| - 1].replacement + Texts(group[..|group| - 1])
  }

  /** Where the source goes on behind the edits of one start. */
  function Resume(group: seq<Edit>, p: nat): nat {
    if group == [] then p
    else if Insertion(group[|group| - 1]) then Resume(group[..|group| - 1], p)
    else group[|group| - 1].end
  }

  /**
   The splice, read off the source in one pass: at each offset the replacements
   that start there, the last listed first, then the source behind what they replace.
   */
  function Spliced(source: string, edits: seq<Edit>, p: nat): string
    decreases |source| - p, 1
  {
    Texts(AtStart(edits, p)) + Onward(source, edits, p, Resume(AtStart(edits, p), p))
  }

  function Onward(source: string, edits: seq<Edit>, p: nat, next: nat): string
    decreases |source| - p, 0
  {
    if p < next <= |source| then Spliced(source, edits, next)
    else if p < |source| then [source[p]] + Spliced(source, edits, p + 1)
    else ""
  }

  /** At each start only insertions are listed after the first edit. */
  ghost predicate TextTakenFirst(edits: seq<Edit>) {
    forall i, j :: 0 <= i < j < |edits| && edits[i].start == edits[j].start ==> Insertion(edits[j])
  }

  ghost predicate InsertionsFollow(group: seq<Edit>) {
    forall k :: 0 < k < |group| ==> Insertion(group[k])
  }

  lemma {:induction false} GroupsInOrder(edits: seq<Edit>, p: nat)
    requires TextTakenFirst(edits)
    ensures InsertionsFollow(AtStart(edits, p))
  {
    if edits != [] {
      var init, last := edits[..|edits| - 1], edits[|edits| - 1];
      GroupsInOrder(init, p);
      AtStartMembers(init, p);
      if AtStart(init, p) != [] {
        assert AtStart(init, p)[0] in init;
        var k :| 0 <= k < |init| && init[k] == AtStart(init, p)[0];
        assert last.start == p ==> edits[k].start == edits[|edits| - 1].start;
      }
    }
  }

  lemma InsertedOver(t: string, e: Edit)
    requires Insertion(e)
    ensures Over(t, e) == e.replacement + t
  {
    assert t[0..] == t;
  }

  lemma {:induction false} StackedInOrder(t: string, group: seq<Edit>)
    requires group != [] && InsertionsFollow(group) && group[0].start <= group[0].end <= group[0].start + |t|
    ensures Stacked(t, group) == Texts(group) + t[group[0].end - group[0].start..]
  {
    var n := |group| - 1;
    var kept := t[group[0].end - group[0].start..];
    if n == 0 {
      assert group[..0] == [] && Stacked(t, group[..0]) == t && Texts(group[..0]) == "";
      assert group[0].replacement + "" == group[0].replacement;
    } else {
      hide Over;
      StackedInOrder(t, group[..n]);
      InsertedOver(Stacked(t, group[..n]), group[n]);
      Regrouped(group[n].replacement, Texts(group[..n]), kept);
    }
  }

  lemma {:induction false} ResumeInOrder(group: seq<Edit>, p: nat)
    requires group != [] && InsertionsFollow(group)
    ensures Resume(group, p) == if Insertion(group[0]) then p else group[0].end
  {
    var n := |group| - 1;
    if n == 0 {
      assert group[..0] == [];
    } else {
      ResumeInOrder(group[..n], p);
    }
  }

  lemma Surrounded(edits: seq<Edit>, e: Edit, q: nat)
    requires e in edits && Disjoint(edits) && e.start < q < e.end
    requires forall f :: f in edits ==> f.start <= f.end
    ensures AtStart(edits, q) == []
  {
    forall f | f in edits ensures f.start != q {
      var i :| 0 <= i < |edits| && edits[i] == e;
      var j :| 0 <= j < |edits| && edits[j] == f;
      assert i < j ==> Apart(edits[i], edits[j]);
      assert j < i ==> Apart(edits[j], edits[i]);
    }
    NoneAtStart(edits, q);
  }

  /** Text an edit takes away has no other edit inside. */
  lemma TakenRun(source: string, edits: seq<Edit>, e: Edit)
    requires e in edits && InBounds(edits, source) && Disjoint(edits) && !Insertion(e)
    ensures e.start < e.end <= |source|
    ensures Behind(source, edits, e.start) == source[e.start..e.end] + Edited(source, edits, e.end)
  {
    hide AtStart, Edited;
    forall q | e.start < q < e.end ensures AtStart(edits, q) == [] {
      Surrounded(edits, e, q);
    }
    UneditedRun(source, edits, e.start, e.end);
  }

  /** Where only insertions follow at each start, what is left is the splice. */
  lemma {:induction false} EditedIsSpliced(source: string, edits: seq<Edit>, p: nat)
    requires InBounds(edits, source) && Disjoint(edits) && TextTakenFirst(edits)
    ensures Edited(source, edits, p) == Spliced(source, edits, p)
    decreases |source| - p
  {
    hide AtStart, Stacked, Texts, Resume, Behind, Onward, InBounds, Disjoint, TextTakenFirst;
    var group := AtStart(edits, p);
    if group != [] {
      GroupFirst(source, edits, p);
      GroupsInOrder(edits, p);
    }
    if group != [] && !Insertion(group[0]) {
      EditedIsSpliced(source, edits, group[0].end);
      TakenIsSpliced(source, edits, p);
    } else {
      if p < |source| {
        EditedIsSpliced(source, edits, p + 1);
      }
      KeptIsSpliced(source, edits, p);
    }
  }

  lemma TakenIsSpliced(source: string, edits: seq<Edit>, p: nat)
    requires InBounds(edits, source) && Disjoint(edits) && InsertionsFollow(AtStart(edits, p)) &&
             AtStart(edits, p) != []
    requires var e := AtStart(edits, p)[0];
             && e in edits && e.start == p && !Insertion(e)
             && Edited(source, edits, e.end) == Spliced(source, edits, e.end)
    ensures Edited(source, edits, p) == Spliced(source, edits, p)
  {
    hide AtStart, Stacked, Texts, Resume, Behind, Spliced, Disjoint;
    var group, e := AtStart(edits, p), AtStart(edits, p)[0];
    TakenRun(source, edits, e);
    DropTaken(source, p, e.end, Edited(source, edits, e.end));
    StackedInOrder(Behind(source, edits, p), group);
    ResumeInOrder(group, p);
    SplicedIs(source, edits, p);
  }

  lemma SplicedIs(source: string, edits: seq<Edit>, p: nat)
    ensures Spliced(source, edits, p) ==
            Texts(AtStart(edits, p)) + Onward(source, edits, p, Resume(AtStart(edits, p), p))
  {
  }

  lemma KeptIsSpliced(source: string, edits: seq<Edit>, p: nat)
    requires InsertionsFollow(AtStart(edits, p)) && (AtStart(edits, p) != [] ==> Insertion(AtStart(edits, p)[0]))
    requires p < |source| ==> Edited(source, edits, p + 1) == Spliced(source, edits, p + 1)
    ensures Edited(source, edits, p) == Spliced(source, edits, p)
  {
    hide AtStart, Stacked, Texts, Resume;
    var group, t := AtStart(edits, p), Behind(source, edits, p);
    if group == [] {
      EmptyGroup(t, p);
    } else {
      StackedInOrder(t, group);
      ResumeInOrder(group, p);
      assert t[0..] == t;
    }
    assert t == Onward(source, edits, p, p);
  }

  lemma EmptyGroup(t: string, p: nat)
    ensures Stacked(t, []) == t && Texts([]) == "" && Resume([], p) == p && Texts([]) + t == t
  {
  }

  lemma GroupFirst(source: string, edits: seq<Edit>, p: nat)
    requires InBounds(edits, source) && AtStart(edits, p) != []
    ensures AtStart(edits, p)[0] in edits && AtStart(edits, p)[0].start == p
    ensures p <= AtStart(edits, p)[0].end <= |source|
  {
    AtStartMembers(edits, p);
    assert AtStart(edits, p)[0] in AtStart(edits, p);
  }

  lemma DropTaken(source: string, s: nat, end: nat, tail: string)
    requires s <= end <= |source|
    ensures (source[s..end] + tail)[end - s..] == tail
  {
  }

  /** Applying edits from the end backward is splicing them all in at once. */
  lemma BackToFrontSplices(edits: seq<Edit>, source: string)
    requires InBounds(edits, source) && Disjoint(edits) && TextTakenFirst(edits)
    ensures AppliedInTurn(source, BackToFront(edits)) == Some(Spliced(source, edits, 0))
  {
    hide AppliedInTurn, BackToFront, Edited, Spliced;
    AppliedIsEdited(edits, source);
    EditedIsSpliced(source, edits, 0);
  }

  // ----- the loop -----

  method Apply(edits: seq<Edit>, source: string) returns (r: Option<string>)
    ensures r == AppliedInTurn(source, BackToFront(edits))
    ensures InBounds(edits, source) && Disjoint(edits) ==> r == Some(Edited(source, edits, 0))
    ensures InBounds(edits, source) && Disjoint(edits) && TextTakenFirst(edits) ==> r == Some(Spliced(source, edits, 0))
  {
    hide InBounds, Disjoint, TextTakenFirst, Spliced, Edited, BackToFront;
    if InBounds(edits, source) && Disjoint(edits) {
      AppliedIsEdited(edits, source);
      if TextTakenFirst(edits) {
        BackToFrontSplices(edits, source);
      }
    }
    var sorted := BackToFront(edits);
    var text := source;
    for k := 0 to |sorted|
      invariant AppliedInTurn(source, sorted[..k]) == Some(text)
    {
      assert sorted[..k + 1][..k] == sorted[..k];
      var e := sorted[k];
      if !(e.start <= e.end <= |text|) {
        AbortStays(source, sorted, k + 1);
        return None;
      }
      text := text[..e.start] + e.replacement + text[e.end..];
    }
    assert sorted[..|sorted|] == sorted;
    return Some(text);
  }

  lemma {:induction false} AbortStays(text: string, edits: seq<Edit>, k: nat)
    requires k <= |edits| && AppliedInTurn(text, edits[..k]).None?
    ensures AppliedInTurn(text, edits).None?
    decreases |edits| - k
  {
    if k == |edits| {
      assert edits[..k] == edits;
    } else {
      assert edits[..k + 1][..k] == edits[..k];
      AbortStays(text, edits, k + 1);
    }
  }
}

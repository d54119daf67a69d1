/**
 Edits with one start. The code splices them whatever their texts exactly when
 no insertion is listed before an edit that takes text away at the same start.
 */
module FixTies {
  import opened Fix
  import opened Wrappers

  // ----- two edits at one start -----

  lemma EqualStartsStay(a: Edit, b: Edit)
    requires a.start == b.start
    ensures BackToFront([a, b]) == [a, b]
  {
    assert [a, b][1..] == [b] && [b][1..] == [] && [a] + [b] == [a, b];
    assert BackToFront([b]) == [b];
  }

  lemma TwoInTurn(text: string, a: Edit, b: Edit)
    ensures AppliedInTurn(text, [a, b]) ==
            match Replaced(text, a) { case None => None case Some(t) => Replaced(t, b) }
  {
    hide Replaced;
    assert [a, b][..1] == [a] && [a][..0] == [];
    assert AppliedInTurn(text, [a]) == Replaced(text, a);
  }

  /** Two disjoint edits at one start: the second listed is made over the text the first has left. */
  lemma TwoAtOneStart(source: string, a: Edit, b: Edit)
    requires a.start == b.start && Apart(a, b) && a.start <= a.end <= |source| && b.start <= b.end <= |source|
    ensures var left := a.replacement + source[a.end..];
            && b.end - b.start <= |left|
            && AppliedInTurn(source, BackToFront([a, b])) ==
               Some(source[..a.start] + b.replacement + left[b.end - b.start..])
  {
    hide AppliedInTurn, BackToFront, Replaced;
    EqualStartsStay(a, b);
    TwoInTurn(source, a, b);
    FirstReplaced(source, a);
    ReplacedBehind(source, a.replacement + source[a.end..], b);
  }

  lemma FirstReplaced(source: string, a: Edit)
    requires a.start <= a.end <= |source|
    ensures Replaced(source, a) == Some(source[..a.start] + (a.replacement + source[a.end..]))
  {
    Regrouped(source[..a.start], a.replacement, source[a.end..]);
  }

  lemma ReplacedBehind(source: string, tail: string, e: Edit)
    requires e.start <= |source| && e.start <= e.end <= e.start + |tail|
    ensures Replaced(source[..e.start] + tail, e) == Some(source[..e.start] + e.replacement + tail[e.end - e.start..])
  {
    CutText(source, tail, e.start, e.end);
  }

  /** Of two insertions at one offset the second listed comes out first. */
  lemma EqualStartsSwap(source: string, p: nat, first: string, second: string)
    requires p <= |source|
    ensures AppliedInTurn(source, BackToFront([Edit(p, p, first), Edit(p, p, second)])) ==
            Some(source[..p] + second + first + source[p..])
  {
    TwoAtOneStart(source, Edit(p, p, first), Edit(p, p, second));
    Regrouped(source[..p] + second, first, source[p..]);
  }

  /** Text taken away first, then an insertion: both land where they belong. */
  lemma InsertionAfter(source: string, p: nat, end: nat, taken: string, inserted: string)
    requires p < end <= |source|
    ensures AppliedInTurn(source, BackToFront([Edit(p, end, taken), Edit(p, p, inserted)])) ==
            Some(source[..p] + inserted + taken + source[end..])
  {
    TwoAtOneStart(source, Edit(p, end, taken), Edit(p, p, inserted));
    Regrouped(source[..p] + inserted, taken, source[end..]);
  }

  /** The failing branch: an insertion listed first is itself overwritten, and that much source survives. */
  lemma InsertionOverwritten(source: string, p: nat, end: nat, taken: string, inserted: string)
    requires p < end <= |source|
    ensures AppliedInTurn(source, BackToFront([Edit(p, p, inserted), Edit(p, end, taken)])) ==
            Some(source[..p] + taken + (inserted + source[p..])[end - p..])
  {
    TwoAtOneStart(source, Edit(p, p, inserted), Edit(p, end, taken));
  }

  lemma InsertionLost()
    ensures AppliedInTurn("ab", BackToFront([Edit(0, 0, "X"), Edit(0, 1, "R")])) == Some("Rab")
    ensures AppliedInTurn("ab", BackToFront([Edit(0, 1, "R"), Edit(0, 0, "X")])) == Some("XRb")
  {
    hide AppliedInTurn, BackToFront;
    InsertionOverwritten("ab", 0, 1, "R", "X");
    InsertionAfter("ab", 0, 1, "R", "X");
    assert "ab"[..0] + "R" + ("X" + "ab"[0..])[1..] == "Rab";
    assert "ab"[..0] + "X" + "R" + "ab"[1..] == "XRb";
  }

  // ----- the same spans with other texts -----

  function Retexted(edits: seq<Edit>, texts: seq<string>): (r: seq<Edit>)
    requires |edits| == |texts|
    ensures |r| == |edits|
    ensures forall k :: 0 <= k < |r| ==> r[k] == Edit(edits[k].start, edits[k].end, texts[k])
  {
    seq(|edits|, k requires 0 <= k < |edits| => Edit(edits[k].start, edits[k].end, texts[k]))
  }

  lemma RetextedKeeps(edits: seq<Edit>, texts: seq<string>, source: string)
    requires |edits| == |texts| && InBounds(edits, source) && Disjoint(edits)
    ensures InBounds(Retexted(edits, texts), source) && Disjoint(Retexted(edits, texts))
    ensures TextTakenFirst(edits) ==> TextTakenFirst(Retexted(edits, texts))
  {
    var r := Retexted(edits, texts);
    forall e | e in r ensures e.start <= e.end <= |source| {
      var k :| 0 <= k < |r| && r[k] == e;
      assert edits[k] in edits;
    }
    forall i, j | 0 <= i < j < |r| ensures Apart(r[i], r[j]) {
      assert Apart(edits[i], edits[j]);
    }
  }

  /** The code splices, whatever the replacement texts. */
  ghost predicate AlwaysSplices(edits: seq<Edit>, source: string) {
    forall texts: seq<string> {:trigger Retexted(edits, texts)} :: |texts| == |edits| ==>
      AppliedInTurn(source, BackToFront(Retexted(edits, texts))) == Some(Spliced(source, Retexted(edits, texts), 0))
  }

  // ----- a list whose one text is lost -----

  /** All texts are empty but that of the insertion at `i`, with text taken away at its start later on. */
  ghost predicate Marked(edits: seq<Edit>, source: string, i: nat, j: nat, mark: char) {
    && InBounds(edits, source) && Disjoint(edits)
    && i < j < |edits| && edits[i].start == edits[j].start && !Insertion(edits[j])
    && edits[i].replacement == [mark] && mark != source[edits[j].end - 1]
    && forall k :: 0 <= k < |edits| && k != i ==> edits[k].replacement == ""
  }

  lemma MarkedFacts(edits: seq<Edit>, source: string, i: nat, j: nat, mark: char)
    requires Marked(edits, source, i, j, mark)
    ensures InBounds(edits, source) && Disjoint(edits) && i < j < |edits|
    ensures edits[j] in edits && edits[j].start < edits[j].end <= |source| && mark != source[edits[j].end - 1]
  {
    assert edits[j] in edits;
  }

  /** Beside the edit at `j` its start has insertions only, and only that at `i` has a text. */
  lemma MarkedEntry(edits: seq<Edit>, source: string, i: nat, j: nat, mark: char, k: nat)
    requires Marked(edits, source, i, j, mark) && k < |edits|
    ensures edits[k].replacement == if k == i then [mark] else ""
    ensures k != j && edits[k].start == edits[j].start ==> Insertion(edits[k])
    ensures k == i ==> edits[k].start == edits[j].start
  {
    assert edits[k] in edits && edits[j] in edits;
    assert k < j ==> Apart(edits[k], edits[j]);
    assert j < k ==> Apart(edits[j], edits[k]);
  }

  lemma PrefixGroup(edits: seq<Edit>, k: nat, p: nat)
    requires k < |edits|
    ensures AtStart(edits[..k + 1], p) ==
            if edits[k].start == p then AtStart(edits[..k], p) + [edits[k]] else AtStart(edits[..k], p)
  {
    assert edits[..k + 1] == edits[..k] + [edits[k]];
    AtStartSnoc(edits[..k], edits[k], p);
  }

  lemma GroupSnoc(t: string, group: seq<Edit>, e: Edit, p: nat)
    ensures Stacked(t, group + [e]) == Over(Stacked(t, group), e)
    ensures Texts(group + [e]) == e.replacement + Texts(group)
    ensures Resume(group + [e], p) == if Insertion(e) then Resume(group, p) else e.end
  {
    StackedSnoc(t, group, e);
    assert (group + [e])[..|group|] == group;
  }

  lemma NothingOver(t: string, e: Edit)
    requires Insertion(e)
    ensures Over(t, e) == e.replacement + t
    ensures e.replacement == "" ==> Over(t, e) == t
  {
    InsertedOver(t, e);
  }

  lemma WithNothing(s: string)
    ensures "" + s == s && s + "" == s
  {
  }

  /** How the group at the marked start looks after the first `k` entries. */
  ghost predicate MarkedSoFar(t: string, group: seq<Edit>, p: nat, end: nat, mark: char, inserted: bool, taken: bool) {
    && p <= end <= p + 1 + |t|
    && Stacked(t, group) == (if taken then ([mark] + t)[end - p..] else if inserted then [mark] + t else t)
    && Texts(group) == (if inserted then [mark] else "")
    && Resume(group, p) == (if taken then end else p)
  }

  lemma MarkedStep(t: string, group: seq<Edit>, p: nat, end: nat, mark: char, inserted: bool, taken: bool, e: Edit)
    requires MarkedSoFar(t, group, p, end, mark, inserted, taken)
    requires Insertion(e) && (e.replacement == "" || (!inserted && !taken && e.replacement == [mark]))
    ensures MarkedSoFar(t, group + [e], p, end, mark, inserted || e.replacement != "", taken)
  {
    hide Stacked, Texts, Resume, Over;
    GroupSnoc(t, group, e, p);
    NothingOver(Stacked(t, group), e);
    WithNothing(Texts(group));
    WithNothing([mark]);
  }

  lemma MarkedTaken(t: string, group: seq<Edit>, p: nat, end: nat, mark: char, e: Edit)
    requires MarkedSoFar(t, group, p, end, mark, true, false) && e == Edit(p, end, "") && p < end
    ensures MarkedSoFar(t, group + [e], p, end, mark, true, true)
  {
    hide Stacked, Texts, Resume;
    GroupSnoc(t, group, e, p);
    WithNothing(Texts(group));
    WithNothing(([mark] + t)[end - p..]);
  }

  lemma MarkedBegins(edits: seq<Edit>, t: string, p: nat, end: nat, mark: char)
    requires p <= end <= p + |t|
    ensures MarkedSoFar(t, AtStart(edits[..0], p), p, end, mark, false, false)
  {
    EmptyGroup(t, p);
  }

  lemma {:induction false} MarkedGroup(edits: seq<Edit>, source: string, i: nat, j: nat, mark: char, t: string, k: nat)
    requires Marked(edits, source, i, j, mark) && k <= |edits|
    requires edits[j].end <= edits[j].start + |t|
    ensures MarkedSoFar(t, AtStart(edits[..k], edits[j].start), edits[j].start, edits[j].end, mark, k > i, k > j)
    decreases k
  {
    hide Marked, MarkedSoFar, AtStart;
    MarkedFacts(edits, source, i, j, mark);
    var p := edits[j].start;
    if k == 0 {
      MarkedBegins(edits, t, p, edits[j].end, mark);
    } else {
      MarkedGroup(edits, source, i, j, mark, t, k - 1);
      PrefixGroup(edits, k - 1, p);
      MarkedEntry(edits, source, i, j, mark, k - 1);
      var e, group := edits[k - 1], AtStart(edits[..k - 1], p);
      if k - 1 == j {
        MarkedTaken(t, group, p, edits[j].end, mark, e);
      } else if e.start == p {
        MarkedStep(t, group, p, edits[j].end, mark, k - 1 > i, k - 1 > j, e);
      }
    }
  }

  lemma MarkedHead(source: string, p: nat, end: nat, tail: string, mark: char)
    requires p < end <= |source|
    ensures ([mark] + (source[p..end] + tail))[end - p..] == [source[end - 1]] + tail
  {
  }

  lemma MarkedDiffers(edits: seq<Edit>, source: string, i: nat, j: nat, mark: char)
    requires Marked(edits, source, i, j, mark)
    ensures Edited(source, edits, edits[j].start) != Spliced(source, edits, edits[j].start)
  {
    hide AtStart, Stacked, Texts, Resume, Behind, Marked, Spliced;
    MarkedFacts(edits, source, i, j, mark);
    var e := edits[j];
    var p, t := e.start, Behind(source, edits, e.start);
    TakenRun(source, edits, e);
    MarkedGroup(edits, source, i, j, mark, t, |edits|);
    assert edits[..|edits|] == edits;
    MarkedHead(source, p, e.end, Edited(source, edits, e.end), mark);
    SplicedIs(source, edits, p);
    assert Edited(source, edits, p)[0] == source[e.end - 1];
    assert Spliced(source, edits, p)[0] == mark;
  }

  // ----- and so is the whole text -----

  predicate AllInsertions(group: seq<Edit>) {
    group == [] || (AllInsertions(group[..|group| - 1]) && Insertion(group[|group| - 1]))
  }

  /** Edits with no text of their own: they only take text away, at most one of them at a start. */
  predicate Blank(group: seq<Edit>) {
    group == [] ||
    (var init, last := group[..|group| - 1], group[|group| - 1];
     Blank(init) && last.replacement == "" && (Insertion(last) || AllInsertions(init)))
  }

  lemma BlankSnoc(group: seq<Edit>, e: Edit)
    requires Blank(group) && e.replacement == "" && (Insertion(e) || AllInsertions(group))
    ensures Blank(group + [e])
  {
    assert (group + [e])[..|group|] == group;
  }

  ghost predicate FitsAt(group: seq<Edit>, p: nat, end: nat) {
    forall e :: e in group ==> e.start == p <= e.end <= end
  }

  /** Blank edits take away the text up to where the source resumes. */
  ghost predicate TakesUpTo(t: string, group: seq<Edit>, p: nat) {
    && Texts(group) == "" && p <= Resume(group, p) <= p + |t|
    && Stacked(t, group) == t[Resume(group, p) - p..]
    && (AllInsertions(group) ==> Resume(group, p) == p)
  }

  lemma TakesNothing(t: string, p: nat)
    ensures TakesUpTo(t, [], p)
  {
    assert t[0..] == t;
  }

  lemma TakesMore(t: string, group: seq<Edit>, p: nat, e: Edit)
    requires TakesUpTo(t, group, p) && e.replacement == "" && (Insertion(e) || AllInsertions(group))
    requires e.start == p <= e.end <= p + |t|
    ensures TakesUpTo(t, group + [e], p)
  {
    hide Stacked, Texts, Resume, AllInsertions;
    GroupSnoc(t, group, e, p);
    WithNothing("");
    NotAllInsertions(group, e);
    if Insertion(e) {
      NothingOver(Stacked(t, group), e);
    } else {
      assert t[0..] == t;
      WithNothing(t[e.end - p..]);
    }
  }

  lemma NotAllInsertions(group: seq<Edit>, e: Edit)
    ensures AllInsertions(group + [e]) <==> AllInsertions(group) && Insertion(e)
  {
    assert (group + [e])[..|group|] == group;
  }

  lemma {:induction false} BlankGroup(t: string, group: seq<Edit>, p: nat)
    requires Blank(group) && FitsAt(group, p, p + |t|)
    ensures TakesUpTo(t, group, p)
  {
    hide TakesUpTo, AllInsertions;
    if group == [] {
      TakesNothing(t, p);
    } else {
      var init, e := group[..|group| - 1], group[|group| - 1];
      assert e in group && forall f :: f in init ==> f in group;
      BlankGroup(t, init, p);
      TakesMore(t, init, p, e);
      assert group == init + [e];
    }
  }

  lemma {:induction false} ResumeFrom(group: seq<Edit>, p: nat) returns (e: Edit)
    requires Resume(group, p) != p
    ensures e in group && !Insertion(e) && e.end == Resume(group, p)
  {
    var n := |group| - 1;
    if Insertion(group[n]) {
      e := ResumeFrom(group[..n], p);
    } else {
      e := group[n];
    }
  }

  lemma InsertionBefore(edits: seq<Edit>, source: string, m: nat, n: nat)
    requires InBounds(edits, source) && Disjoint(edits) && m < n < |edits| && !Insertion(edits[n])
    ensures edits[m].start == edits[n].start ==> Insertion(edits[m])
  {
    assert Apart(edits[m], edits[n]) && edits[m] in edits && edits[n] in edits;
  }

  lemma NothingBefore(edits: seq<Edit>, p: nat)
    ensures AllInsertions(AtStart(edits[..0], p))
  {
  }

  /** Before an edit that takes text away, its start lists insertions only. */
  lemma {:induction false} InsertionsBefore(edits: seq<Edit>, source: string, n: nat, k: nat)
    requires InBounds(edits, source) && Disjoint(edits) && k <= n < |edits| && !Insertion(edits[n])
    ensures AllInsertions(AtStart(edits[..k], edits[n].start))
    decreases k
  {
    hide AtStart, AllInsertions, InBounds, Disjoint, Insertion;
    if k == 0 {
      NothingBefore(edits, edits[n].start);
    } else {
      InsertionsBefore(edits, source, n, k - 1);
      PrefixGroup(edits, k - 1, edits[n].start);
      InsertionBefore(edits, source, k - 1, n);
      NotAllInsertions(AtStart(edits[..k - 1], edits[n].start), edits[k - 1]);
    }
  }

  lemma BlankStep(edits: seq<Edit>, source: string, q: nat, n: nat)
    requires InBounds(edits, source) && Disjoint(edits) && n < |edits|
    requires Blank(AtStart(edits[..n], q)) && (edits[n].start == q ==> edits[n].replacement == "")
    ensures Blank(AtStart(edits[..n + 1], q))
  {
    hide AtStart, Blank, AllInsertions, InBounds, Disjoint;
    PrefixGroup(edits, n, q);
    if edits[n].start == q {
      if !Insertion(edits[n]) {
        InsertionsBefore(edits, source, n, n);
      }
      BlankSnoc(AtStart(edits[..n], q), edits[n]);
    }
  }

  lemma OtherIsBlank(edits: seq<Edit>, source: string, i: nat, j: nat, mark: char, q: nat, k: nat)
    requires Marked(edits, source, i, j, mark) && q != edits[j].start && k < |edits|
    requires Blank(AtStart(edits[..k], q))
    ensures Blank(AtStart(edits[..k + 1], q))
  {
    hide AtStart, Blank, Marked, InBounds, Disjoint;
    MarkedFacts(edits, source, i, j, mark);
    MarkedEntry(edits, source, i, j, mark, k);
    BlankStep(edits, source, q, k);
  }

  lemma {:induction false} OthersAreBlank(edits: seq<Edit>, source: string, i: nat, j: nat, mark: char, q: nat, k: nat)
    requires Marked(edits, source, i, j, mark) && q != edits[j].start && k <= |edits|
    ensures Blank(AtStart(edits[..k], q))
    decreases k
  {
    if k > 0 {
      hide AtStart, Blank, Marked;
      OthersAreBlank(edits, source, i, j, mark, q, k - 1);
      OtherIsBlank(edits, source, i, j, mark, q, k - 1);
    }
  }

  lemma BeforeMarked(edits: seq<Edit>, source: string, i: nat, j: nat, mark: char, e: Edit)
    requires Marked(edits, source, i, j, mark) && e in edits && e.start < edits[j].start
    ensures e.end <= edits[j].start
  {
    var k :| 0 <= k < |edits| && edits[k] == e;
    assert edits[j] in edits;
    assert k < j ==> Apart(edits[k], edits[j]);
    assert j < k ==> Apart(edits[j], edits[k]);
  }

  lemma BlankHere(edits: seq<Edit>, source: string, i: nat, j: nat, mark: char, q: nat)
    requires Marked(edits, source, i, j, mark) && q < edits[j].start
    ensures Blank(AtStart(edits, q)) && FitsAt(AtStart(edits, q), q, q + |Behind(source, edits, q)|)
    ensures FitsAt(AtStart(edits, q), q, edits[j].start)
    ensures forall e :: e in AtStart(edits, q) ==> e in edits
  {
    hide AtStart, Blank, Behind;
    OthersAreBlank(edits, source, i, j, mark, q, |edits|);
    assert edits[..|edits|] == edits;
    AtStartMembers(edits, q);
    forall e | e in AtStart(edits, q)
      ensures e.start == q <= e.end <= q + |Behind(source, edits, q)| && e.end <= edits[j].start
    {
      BeforeMarked(edits, source, i, j, mark, e);
      if !Insertion(e) {
        TakenRun(source, edits, e);
      }
    }
  }

  /** From an offset before the marked start both readings go on to a common next offset. */
  lemma CommonStep(
    edits: seq<Edit>, source: string, i: nat, j: nat, mark: char, q: nat) returns (next: nat, kept: string)
    requires Marked(edits, source, i, j, mark) && q < edits[j].start
    ensures q < next <= edits[j].start
    ensures Edited(source, edits, q) == kept + Edited(source, edits, next)
    ensures Spliced(source, edits, q) == kept + Spliced(source, edits, next)
  {
    hide AtStart, Stacked, Texts, Resume, Marked, Blank, Spliced, AllInsertions;
    MarkedFacts(edits, source, i, j, mark);
    BlankHere(edits, source, i, j, mark, q);
    var group, t := AtStart(edits, q), Behind(source, edits, q);
    BlankGroup(t, group, q);
    SplicedIs(source, edits, q);
    WithNothing(Onward(source, edits, q, Resume(group, q)));
    if Resume(group, q) == q {
      next, kept := q + 1, [source[q]];
      assert t[0..] == t;
    } else {
      var e := ResumeFrom(group, q);
      next, kept := e.end, "";
      TakenRun(source, edits, e);
      DropTaken(source, q, next, Edited(source, edits, next));
      WithNothing(Edited(source, edits, next));
      WithNothing(Spliced(source, edits, next));
    }
  }

  lemma {:induction false} DiffersFrom(edits: seq<Edit>, source: string, i: nat, j: nat, mark: char, q: nat)
    requires Marked(edits, source, i, j, mark) && q <= edits[j].start
    ensures Edited(source, edits, q) != Spliced(source, edits, q)
    decreases edits[j].start - q
  {
    hide Marked, Edited, Spliced;
    MarkedFacts(edits, source, i, j, mark);
    if q == edits[j].start {
      MarkedDiffers(edits, source, i, j, mark);
    } else {
      var next, kept := CommonStep(edits, source, i, j, mark, q);
      DiffersFrom(edits, source, i, j, mark, next);
      Cancels(kept, Edited(source, edits, next), Spliced(source, edits, next));
    }
  }

  lemma Cancels(a: string, b: string, c: string)
    requires b != c
    ensures a + b != a + c
  {
    assert (a + b)[|a|..] == b && (a + c)[|a|..] == c;
  }

  function MarkText(n: nat, i: nat, mark: char): seq<string> {
    seq(n, k => if k == i then [mark] else "")
  }

  /** An insertion listed before an edit that takes text away at its start can be lost. */
  lemma OutOfOrderFails(edits: seq<Edit>, source: string, i: nat, j: nat)
    requires InBounds(edits, source) && Disjoint(edits)
    requires i < j < |edits| && edits[i].start == edits[j].start && !Insertion(edits[j])
    ensures !AlwaysSplices(edits, source)
  {
    assert edits[j] in edits;
    var mark := if source[edits[j].end - 1] == 'a' then 'b' else 'a';
    var texts := MarkText(|edits|, i, mark);
    var marked := Retexted(edits, texts);
    RetextedKeeps(edits, texts, source);
    assert Marked(marked, source, i, j, mark);
    DiffersFrom(marked, source, i, j, mark, 0);
    AppliedIsEdited(marked, source);
  }

  /**
   For disjoint edits in bounds, the code splices whatever the replacement texts if
   and only if at each start only insertions are listed after the first edit.
   */
  lemma AlwaysSplicesIff(edits: seq<Edit>, source: string)
    requires InBounds(edits, source) && Disjoint(edits)
    ensures AlwaysSplices(edits, source) <==> TextTakenFirst(edits)
  {
    if TextTakenFirst(edits) {
      forall texts: seq<string> | |texts| == |edits|
        ensures AppliedInTurn(source, BackToFront(Retexted(edits, texts))) ==
                Some(Spliced(source, Retexted(edits, texts), 0))
      {
        RetextedKeeps(edits, texts, source);
        BackToFrontSplices(Retexted(edits, texts), source);
      }
    } else {
      var i, j :| 0 <= i < j < |edits| && edits[i].start == edits[j].start && !Insertion(edits[j]);
      OutOfOrderFails(edits, source, i, j);
    }
  }
}

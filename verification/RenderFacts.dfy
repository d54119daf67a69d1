/** What every layout keeps, whatever the width. */
module RenderFacts {
  import opened Docs
  import opened Render

  // ----- a group that fits is one line -----

  ghost predicate OneLine(pieces: seq<Piece>) {
    forall p :: p in pieces ==> !p.Newline?
  }

  lemma {:induction false} LineColumn(col: nat, pieces: seq<Piece>)
    requires OneLine(pieces)
    ensures ColumnAfter(col, pieces) == col + |Print(pieces)|
    decreases |pieces|
  {
    if pieces != [] {
      assert pieces[0] in pieces;
      LineColumn(ColumnAfterPiece(col, pieces[0]), pieces[1..]);
    }
  }

  /** The pieces are one line that says `text`. */
  ghost predicate Says(pieces: seq<Piece>, text: string) {
    OneLine(pieces) && Print(pieces) == text
  }

  lemma SaysBoth(a: seq<Piece>, s: string, b: seq<Piece>, t: string)
    requires Says(a, s) && Says(b, t)
    ensures Says(a + b, s + t)
  {
    PrintJoins(a, b);
  }

  /** No hard break and no line suffix in the flat layout. */
  predicate Plain(d: Doc) {
    NoHardline(d) && SuffixLength(d) == 0
  }

  /** Flat text that fits passes the fit check; without line suffixes nothing else does. */
  lemma FitsByLength(d: Doc, columns: nat)
    requires NoHardline(d)
    ensures |FlatText(d)| <= columns ==> FlatFits(d, columns)
    ensures Plain(d) && FlatFits(d, columns) ==> |FlatText(d)| <= columns
  {
    ExtentIsFlatLength(d);
  }

  /** In flat mode, text that fits the line stays on it: nested groups and fills too. */
  lemma {:induction false} FlatStaysFlat(d: Doc, ind: nat, width: nat, col: nat)
    requires NoHardline(d) && |FlatText(d)| <= Left(width, col)
    ensures Says(Layout(d, ind, Flat, width, col), FlatText(d))
    decreases d, 1
  {
    match d
    case Concat(docs) => FlatStaysFlatAll(docs, ind, width, col);
    case Indent(n, inner) => FlatStaysFlat(inner, ind + n, width, col);
    case Group(inner) =>
      FitsByLength(inner, Left(width, col));
      FlatStaysFlat(inner, ind, width, col);
    case IfBreak(flat, _) => FlatStaysFlat(flat, ind, width, col);
    case Fill(items) =>
      if items != [] {
        assert NoHardlines(items);
        FlatStaysFlat(items[0], ind, width, col);
        var first := Layout(items[0], ind, Flat, width, col);
        LineColumn(col, first);
        FlatStaysFlatRest(items[1..], ind, width, ColumnAfter(col, first));
        SaysBoth(first, FlatText(items[0]), LayoutRest(items[1..], ind, width, ColumnAfter(col, first)),
          FlatRest(items[1..]));
      }
    case _ =>
  }

  lemma {:induction false} FlatStaysFlatAll(docs: seq<Doc>, ind: nat, width: nat, col: nat)
    requires NoHardlines(docs) && |FlatAll(docs)| <= Left(width, col)
    ensures Says(LayoutAll(docs, ind, Flat, width, col), FlatAll(docs))
    decreases docs, 0
  {
    if docs != [] {
      FlatStaysFlat(docs[0], ind, width, col);
      var first := Layout(docs[0], ind, Flat, width, col);
      LineColumn(col, first);
      FlatStaysFlatAll(docs[1..], ind, width, ColumnAfter(col, first));
      SaysBoth(first, FlatText(docs[0]), LayoutAll(docs[1..], ind, Flat, width, ColumnAfter(col, first)),
        FlatAll(docs[1..]));
    }
  }

  lemma {:induction false} FlatStaysFlatRest(items: seq<Doc>, ind: nat, width: nat, col: nat)
    requires NoHardlines(items) && |FlatRest(items)| <= Left(width, col)
    ensures Says(LayoutRest(items, ind, width, col), FlatRest(items))
    decreases items, 0
  {
    if items != [] {
      FitsByLength(items[0], Left(width, col + 1));
      FlatStaysFlat(items[0], ind, width, col + 1);
      var item := Layout(items[0], ind, Flat, width, col + 1);
      LineColumn(col + 1, item);
      FlatStaysFlatRest(items[1..], ind, width, ColumnAfter(col + 1, item));
      SaysBoth([Blank], " ", item, FlatText(items[0]));
      SaysBoth([Blank] + item, " " + FlatText(items[0]),
        LayoutRest(items[1..], ind, width, ColumnAfter(col + 1, item)), FlatRest(items[1..]));
    }
  }

  /** A group passes the fit check exactly when its flat text ends within the width, and is then that one line. */
  lemma GroupThatFits(d: Doc, ind: nat, mode: Mode, width: nat, col: nat)
    requires Plain(d)
    ensures FlatFits(d, Left(width, col)) <==> col + |FlatText(d)| <= width || FlatText(d) == ""
    ensures FlatFits(d, Left(width, col)) ==> Says(Layout(Group(d), ind, mode, width, col), FlatText(d))
  {
    FitsByLength(d, Left(width, col));
    if FlatFits(d, Left(width, col)) {
      FlatStaysFlat(d, ind, width, col);
    }
  }

  /** A fill item goes on the line exactly when it ends within the width there, behind one space. */
  lemma ItemThatFits(item: Doc, ind: nat, width: nat, col: nat)
    requires Plain(item)
    ensures Separator(item, ind, width, col) ==
            if col + 1 + |FlatText(item)| <= width || FlatText(item) == "" then Blank else Newline(ind)
  {
    FitsByLength(item, Left(width, col + 1));
  }

  // ----- flatten -----

  /** What the document says on one line when its hard breaks return to column `ind`. */
  function FlatTextAt(d: Doc, ind: nat): string
    decreases d, 1
  {
    match d
    case Nil => ""
    case Text(s) => s
    case LineSuffix(s) => s
    case Hardline => PrintPiece(Newline(ind))
    case Line => " "
    case Softline => ""
    case Concat(docs) => FlatAllAt(docs, ind)
    case Indent(_, inner) => FlatTextAt(inner, ind)
    case Group(inner) => FlatTextAt(inner, ind)
    case Fill(items) => if items == [] then "" else FlatTextAt(items[0], ind) + FlatRestAt(items[1..], ind)
    case IfBreak(flat, _) => FlatTextAt(flat, ind)
  }

  function FlatAllAt(docs: seq<Doc>, ind: nat): string
    decreases docs, 0
  {
    if docs == [] then "" else FlatTextAt(docs[0], ind) + FlatAllAt(docs[1..], ind)
  }

  function FlatRestAt(items: seq<Doc>, ind: nat): string
    decreases items, 0
  {
    if items == [] then "" else " " + FlatTextAt(items[0], ind) + FlatRestAt(items[1..], ind)
  }

  /** At indentation zero, or without hard breaks, that is the flat text. */
  lemma {:induction false} FlatTextAtMargin(d: Doc, ind: nat)
    requires ind == 0 || NoHardline(d)
    ensures FlatTextAt(d, ind) == FlatText(d)
    decreases d, 1
  {
    match d
    case Concat(docs) => FlatAllAtMargin(docs, ind);
    case Indent(_, inner) => FlatTextAtMargin(inner, ind);
    case Group(inner) => FlatTextAtMargin(inner, ind);
    case IfBreak(flat, _) => FlatTextAtMargin(flat, ind);
    case Fill(items) =>
      if items != [] {
        assert ind == 0 || NoHardlines(items);
        FlatTextAtMargin(items[0], ind);
        FlatRestAtMargin(items[1..], ind);
      }
    case _ =>
  }

  lemma {:induction false} FlatAllAtMargin(docs: seq<Doc>, ind: nat)
    requires ind == 0 || NoHardlines(docs)
    ensures FlatAllAt(docs, ind) == FlatAll(docs)
    decreases docs, 0
  {
    if docs != [] {
      FlatTextAtMargin(docs[0], ind);
      FlatAllAtMargin(docs[1..], ind);
    }
  }

  lemma {:induction false} FlatRestAtMargin(items: seq<Doc>, ind: nat)
    requires ind == 0 || NoHardlines(items)
    ensures FlatRestAt(items, ind) == FlatRest(items)
    decreases items, 0
  {
    if items != [] {
      FlatTextAtMargin(items[0], ind);
      FlatRestAtMargin(items[1..], ind);
    }
  }

  /** A flattened document renders as its flat text, at every width, column, mode and indentation. */
  lemma {:induction false} FlattenPrints(d: Doc, ind: nat, mode: Mode, width: nat, col: nat)
    ensures Print(Layout(Flatten(d), ind, mode, width, col)) == FlatTextAt(d, ind)
    decreases d, 1
  {
    match d
    case Concat(docs) => FlattenAllPrints(docs, ind, mode, width, col);
    case Indent(_, inner) => FlattenPrints(inner, ind, mode, width, col);
    case Group(inner) => FlattenPrints(inner, ind, mode, width, col);
    case IfBreak(flat, _) => FlattenPrints(flat, ind, mode, width, col);
    case Hardline => OnePiece(Newline(ind), col);
    case Fill(items) =>
      if items != [] {
        FillFlattens(items, ind, mode, width, col);
      }
    case _ =>
  }

  lemma {:induction false} FlattenAllPrints(docs: seq<Doc>, ind: nat, mode: Mode, width: nat, col: nat)
    ensures Print(LayoutAll(FlattenAll(docs), ind, mode, width, col)) == FlatAllAt(docs, ind)
    decreases docs, 0
  {
    if docs != [] {
      FlattenPrints(docs[0], ind, mode, width, col);
      var first := Layout(Flatten(docs[0]), ind, mode, width, col);
      FlattenAllPrints(docs[1..], ind, mode, width, ColumnAfter(col, first));
      assert FlattenAll(docs)[1..] == FlattenAll(docs[1..]);
      PrintJoins(first, LayoutAll(FlattenAll(docs[1..]), ind, mode, width, ColumnAfter(col, first)));
    }
  }

  lemma AllCons(d: Doc, rest: seq<Doc>, ind: nat, mode: Mode, width: nat, col: nat)
    ensures var first := Layout(d, ind, mode, width, col);
            Print(LayoutAll([d] + rest, ind, mode, width, col)) ==
            Print(first) + Print(LayoutAll(rest, ind, mode, width, ColumnAfter(col, first)))
  {
    assert ([d] + rest)[1..] == rest;
    var first := Layout(d, ind, mode, width, col);
    PrintJoins(first, LayoutAll(rest, ind, mode, width, ColumnAfter(col, first)));
  }

  lemma {:induction false} FillFlattens(items: seq<Doc>, ind: nat, mode: Mode, width: nat, col: nat)
    requires items != []
    ensures Print(LayoutAll(Joined(FlattenAll(items), Space()), ind, mode, width, col)) ==
            FlatTextAt(items[0], ind) + FlatRestAt(items[1..], ind)
    decreases items, 0
  {
    hide Layout, LayoutAll, ColumnAfter, Print, Flatten, FlatTextAt;
    FlattenPrints(items[0], ind, mode, width, col);
    var next := ColumnAfter(col, Layout(Flatten(items[0]), ind, mode, width, col));
    var flat := FlattenAll(items);
    assert flat[0] == Flatten(items[0]) && flat[1..] == FlattenAll(items[1..]);
    if |items| == 1 {
      AllCons(flat[0], [], ind, mode, width, col);
      assert flat == [flat[0]] + [];
      NothingLaid(ind, mode, width, next);
    } else {
      var rest := Joined(flat[1..], Space());
      JoinedCons(flat, Space());
      AllCons(flat[0], [Space()] + rest, ind, mode, width, col);
      AllCons(Space(), rest, ind, mode, width, next);
      SpaceLaid(ind, mode, width, next);
      FillFlattens(items[1..], ind, mode, width, next + 1);
      Regroup(" ", FlatTextAt(items[1], ind), FlatRestAt(items[2..], ind));
      assert items[1..][1..] == items[2..];
    }
  }

  lemma JoinedCons(docs: seq<Doc>, sep: Doc)
    requires |docs| > 1
    ensures Joined(docs, sep) == [docs[0]] + ([sep] + Joined(docs[1..], sep))
  {
  }

  lemma NothingLaid(ind: nat, mode: Mode, width: nat, col: nat)
    ensures Print(LayoutAll([], ind, mode, width, col)) == ""
  {
  }

  lemma SpaceLaid(ind: nat, mode: Mode, width: nat, col: nat)
    ensures Print(Layout(Space(), ind, mode, width, col)) == " "
    ensures ColumnAfter(col, Layout(Space(), ind, mode, width, col)) == col + 1
  {
    OnePiece(Fragment(" "), col);
  }

  /** Flattened documents render the same at every width. */
  lemma FlattenIgnoresWidth(d: Doc, width: nat, other: nat)
    ensures Print(Layout(Flatten(d), 0, Break, width, 0)) == FlatText(d)
    ensures Print(Layout(Flatten(d), 0, Break, other, 0)) == FlatText(d)
  {
    FlattenPrints(d, 0, Break, width, 0);
    FlattenPrints(d, 0, Break, other, 0);
    FlatTextAtMargin(d, 0);
  }

  // ----- width changes layout only -----

  predicate NoIfBreak(d: Doc)
    decreases d, 1
  {
    match d
    case IfBreak(_, _) => false
    case Concat(docs) => NoIfBreaks(docs)
    case Fill(items) => NoIfBreaks(items)
    case Indent(_, inner) => NoIfBreak(inner)
    case Group(inner) => NoIfBreak(inner)
    case _ => true
  }

  predicate NoIfBreaks(docs: seq<Doc>)
    decreases docs, 0
  {
    docs == [] || (NoIfBreak(docs[0]) && NoIfBreaks(docs[1..]))
  }

  /** The text fragments of a document, in document order. */
  function FragmentsOf(d: Doc): seq<string>
    decreases d, 1
  {
    match d
    case Text(s) => [s]
    case LineSuffix(s) => [s]
    case Concat(docs) => FragmentsOfAll(docs)
    case Fill(items) => FragmentsOfAll(items)
    case Indent(_, inner) => FragmentsOf(inner)
    case Group(inner) => FragmentsOf(inner)
    case _ => []
  }

  function FragmentsOfAll(docs: seq<Doc>): seq<string>
    decreases docs, 0
  {
    if docs == [] then [] else FragmentsOf(docs[0]) + FragmentsOfAll(docs[1..])
  }

  /** The text fragments among the pieces, in output order. */
  function Fragments(pieces: seq<Piece>): seq<string> {
    if pieces == [] then []
    else FragmentOf(pieces[0]) + Fragments(pieces[1..])
  }

  function FragmentOf(p: Piece): seq<string> {
    if p.Fragment? || p.Trailing? then [p.text] else []
  }

  lemma FragmentsCons(p: Piece, rest: seq<Piece>)
    ensures Fragments([p] + rest) == FragmentOf(p) + Fragments(rest)
  {
    assert ([p] + rest)[1..] == rest;
  }

  lemma FragmentsNothing(b: seq<Piece>)
    ensures Fragments([] + b) == Fragments([]) + Fragments(b)
  {
    assert [] + b == b;
  }

  lemma {:induction false} FragmentsJoin(a: seq<Piece>, b: seq<Piece>)
    ensures Fragments(a + b) == Fragments(a) + Fragments(b)
  {
    hide Fragments, FragmentOf;
    if a == [] {
      FragmentsNothing(b);
    } else {
      FragmentsJoin(a[1..], b);
      HeadSplit(a, b);
      FragmentsCons(a[0], a[1..]);
      FragmentsCons(a[0], a[1..] + b);
      Regroup(FragmentOf(a[0]), Fragments(a[1..]), Fragments(b));
    }
  }

  lemma NoFragments()
    ensures Fragments([]) == []
  {
  }

  lemma SeparatorHasNone(item: Doc, ind: nat, width: nat, col: nat)
    ensures Fragments([Separator(item, ind, width, col)]) == []
  {
  }

  /** Every fragment comes out exactly once, in document order, at every width. */
  lemma {:induction false} FragmentsKept(d: Doc, ind: nat, mode: Mode, width: nat, col: nat)
    requires NoIfBreak(d)
    ensures Fragments(Layout(d, ind, mode, width, col)) == FragmentsOf(d)
    decreases d, 1
  {
    hide ColumnAfter, LayoutAll, LayoutRest, FlatFits;
    match d
    case Concat(docs) => FragmentsKeptAll(docs, ind, mode, width, col);
    case Indent(n, inner) => FragmentsKept(inner, ind + n, mode, width, col);
    case Group(inner) =>
      FragmentsKept(inner, ind, if FlatFits(inner, Left(width, col)) then Flat else Break, width, col);
    case Fill(items) =>
      if items != [] {
        var first := Layout(items[0], ind, Flat, width, col);
        FragmentsKept(items[0], ind, Flat, width, col);
        FragmentsKeptRest(items[1..], ind, width, ColumnAfter(col, first));
        FragmentsJoin(first, LayoutRest(items[1..], ind, width, ColumnAfter(col, first)));
      }
    case _ =>
  }

  lemma {:induction false} FragmentsKeptAll(docs: seq<Doc>, ind: nat, mode: Mode, width: nat, col: nat)
    requires NoIfBreaks(docs)
    ensures Fragments(LayoutAll(docs, ind, mode, width, col)) == FragmentsOfAll(docs)
    decreases docs, 0
  {
    if docs != [] {
      var first := Layout(docs[0], ind, mode, width, col);
      FragmentsKept(docs[0], ind, mode, width, col);
      FragmentsKeptAll(docs[1..], ind, mode, width, ColumnAfter(col, first));
      FragmentsJoin(first, LayoutAll(docs[1..], ind, mode, width, ColumnAfter(col, first)));
    }
  }

  lemma {:induction false} FragmentsKeptRest(items: seq<Doc>, ind: nat, width: nat, col: nat)
    requires NoIfBreaks(items)
    ensures Fragments(LayoutRest(items, ind, width, col)) == FragmentsOfAll(items)
    decreases items, 0
  {
    hide Layout, ColumnAfter, Fragments, FragmentsOf, Separator, NoIfBreak;
    if items == [] {
      NoFragments();
    } else {
      var sep := Separator(items[0], ind, width, col);
      var at := ColumnAfterPiece(col, sep);
      var item := Layout(items[0], ind, Flat, width, at);
      SeparatorHasNone(items[0], ind, width, col);
      FragmentsKept(items[0], ind, Flat, width, at);
      FragmentsKeptRest(items[1..], ind, width, ColumnAfter(at, item));
      FragmentsJoin([sep], item);
      FragmentsJoin([sep] + item, LayoutRest(items[1..], ind, width, ColumnAfter(at, item)));
    }
  }

  // ----- the same on the rendered text -----

  /** The text with its layout characters left out. */
  function Ink(s: string): string {
    if s == "" then "" else (if s[0] == ' ' || s[0] == '\n' then "" else [s[0]]) + Ink(s[1..])
  }

  lemma {:induction false} InkJoins(a: string, b: string)
    ensures Ink(a + b) == Ink(a) + Ink(b)
  {
    if a == "" {
      assert a + b == b;
    } else {
      InkJoins(a[1..], b);
      assert (a + b)[1..] == a[1..] + b;
      Regroup(if a[0] == ' ' || a[0] == '\n' then "" else [a[0]], Ink(a[1..]), Ink(b));
    }
  }

  lemma {:induction false} SpacesLeaveNoInk(n: nat)
    ensures Ink(Spaces(n)) == ""
  {
    if n > 0 {
      SpacesLeaveNoInk(n - 1);
      InkJoins(Spaces(n - 1), " ");
    }
  }

  function InkOf(fragments: seq<string>): string {
    if fragments == [] then "" else Ink(fragments[0]) + InkOf(fragments[1..])
  }

  lemma {:induction false} PrintedInk(pieces: seq<Piece>)
    ensures Ink(Print(pieces)) == InkOf(Fragments(pieces))
  {
    if pieces != [] {
      PrintedInk(pieces[1..]);
      InkJoins(PrintPiece(pieces[0]), Print(pieces[1..]));
      assert pieces[0].Fragment? || pieces[0].Trailing? || Fragments(pieces) == Fragments(pieces[1..]);
      match pieces[0]
      case Newline(ind) =>
        InkJoins("\n", Spaces(ind));
        SpacesLeaveNoInk(ind);
      case Blank =>
        assert Ink(" ") == "";
      case _ =>
        assert Fragments(pieces)[1..] == Fragments(pieces[1..]);
    }
  }

  /** Two widths print the same ink. */
  lemma WidthMovesNoInk(d: Doc, width: nat, other: nat)
    requires NoIfBreak(d)
    ensures Ink(Print(Layout(d, 0, Break, width, 0))) == Ink(Print(Layout(d, 0, Break, other, 0)))
  {
    FragmentsKept(d, 0, Break, width, 0);
    FragmentsKept(d, 0, Break, other, 0);
    PrintedInk(Layout(d, 0, Break, width, 0));
    PrintedInk(Layout(d, 0, Break, other, 0));
  }
}

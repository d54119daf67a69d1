/**
 Line suffixes and the fit check. The check does not count a suffix, but the
 renderer's column does, so a group or fill item behind one may break although
 the group around it passed. Here is exactly when.
 */
module RenderSuffix {
  import opened Docs
  import opened Render
  import opened RenderFacts

  // ----- where the choices of a flat layout fall -----

  /** The layout is the same in both modes: whatever depends on the mode sits inside a group or a fill. */
  predicate Modeless(d: Doc)
    decreases d, 1
  {
    match d
    case Line => false
    case Softline => false
    case IfBreak(_, _) => false
    case Concat(docs) => ModelessAll(docs)
    case Indent(_, inner) => Modeless(inner)
    case _ => true
  }

  predicate ModelessAll(docs: seq<Doc>)
    decreases docs, 0
  {
    docs == [] || (Modeless(docs[0]) && ModelessAll(docs[1..]))
  }

  /** The document holds a line break of its own, so laying it out broken breaks the line. */
  predicate MustBreak(d: Doc)
    decreases d, 1
  {
    match d
    case Hardline => true
    case Line => true
    case Softline => true
    case IfBreak(_, broken) => MustBreak(broken)
    case Concat(docs) => SomeMustBreak(docs)
    case Indent(_, inner) => MustBreak(inner)
    case _ => false
  }

  predicate SomeMustBreak(docs: seq<Doc>)
    decreases docs, 0
  {
    docs != [] && (MustBreak(docs[0]) || SomeMustBreak(docs[1..]))
  }

  /**
   Every nested group shows its choice: it has none to make, or a line break of
   its own where its flat form has none.
   */
  predicate GroupsShow(d: Doc)
    decreases d, 1
  {
    match d
    case Concat(docs) => AllGroupsShow(docs)
    case Fill(items) => AllGroupsShow(items)
    case Indent(_, inner) => GroupsShow(inner)
    case IfBreak(flat, _) => GroupsShow(flat)
    case Group(inner) => (Modeless(inner) || (MustBreak(inner) && NoHardline(inner))) && GroupsShow(inner)
    case _ => true
  }

  predicate AllGroupsShow(docs: seq<Doc>)
    decreases docs, 0
  {
    docs == [] || (GroupsShow(docs[0]) && AllGroupsShow(docs[1..]))
  }

  /** The layout with every group flat and every fill item on the line, whatever the width. */
  function FlatPieces(d: Doc, ind: nat): seq<Piece>
    decreases d, 1
  {
    match d
    case Nil => []
    case Text(s) => [Fragment(s)]
    case LineSuffix(s) => [Trailing(s)]
    case Hardline => [Newline(ind)]
    case Line => [Blank]
    case Softline => []
    case IfBreak(flat, _) => FlatPieces(flat, ind)
    case Concat(docs) => FlatPiecesAll(docs, ind)
    case Indent(n, inner) => FlatPieces(inner, ind + n)
    case Group(inner) => FlatPieces(inner, ind)
    case Fill(items) => if items == [] then [] else FlatPieces(items[0], ind) + FlatPiecesRest(items[1..], ind)
  }

  function FlatPiecesAll(docs: seq<Doc>, ind: nat): seq<Piece>
    decreases docs, 0
  {
    if docs == [] then [] else FlatPieces(docs[0], ind) + FlatPiecesAll(docs[1..], ind)
  }

  function FlatPiecesRest(items: seq<Doc>, ind: nat): seq<Piece>
    decreases items, 0
  {
    if items == [] then [] else [Blank] + FlatPieces(items[0], ind) + FlatPiecesRest(items[1..], ind)
  }

  /** The column a flat layout comes to. */
  function FlatColumn(d: Doc, ind: nat, col: nat): nat {
    ColumnAfter(col, FlatPieces(d, ind))
  }

  /**
   Every nested group with a choice, and every fill item after the first, passes
   the fit check at the column the flat layout puts it at, suffixes counted.
   */
  predicate Settled(d: Doc, ind: nat, width: nat, col: nat)
    decreases d, 1
  {
    match d
    case Concat(docs) => SettledAll(docs, ind, width, col)
    case Indent(n, inner) => Settled(inner, ind + n, width, col)
    case IfBreak(flat, _) => Settled(flat, ind, width, col)
    case Group(inner) => (Modeless(inner) || FlatFits(inner, Left(width, col))) && Settled(inner, ind, width, col)
    case Fill(items) =>
      items == [] ||
      (Settled(items[0], ind, width, col) && SettledRest(items[1..], ind, width, FlatColumn(items[0], ind, col)))
    case _ => true
  }

  predicate SettledAll(docs: seq<Doc>, ind: nat, width: nat, col: nat)
    decreases docs, 0
  {
    docs == [] ||
    (Settled(docs[0], ind, width, col) && SettledAll(docs[1..], ind, width, FlatColumn(docs[0], ind, col)))
  }

  predicate SettledRest(items: seq<Doc>, ind: nat, width: nat, col: nat)
    decreases items, 0
  {
    items == [] ||
    (&& FlatFits(items[0], Left(width, col + 1))
     && Settled(items[0], ind, width, col + 1)
     && SettledRest(items[1..], ind, width, FlatColumn(items[0], ind, col + 1)))
  }

  // ----- settled documents are laid out flat -----

  lemma {:induction false} ModelessLayout(d: Doc, ind: nat, width: nat, col: nat)
    requires Modeless(d)
    ensures Layout(d, ind, Break, width, col) == Layout(d, ind, Flat, width, col)
    decreases d, 1
  {
    match d
    case Concat(docs) => ModelessLayouts(docs, ind, width, col);
    case Indent(n, inner) => ModelessLayout(inner, ind + n, width, col);
    case _ =>
  }

  lemma {:induction false} ModelessLayouts(docs: seq<Doc>, ind: nat, width: nat, col: nat)
    requires ModelessAll(docs)
    ensures LayoutAll(docs, ind, Break, width, col) == LayoutAll(docs, ind, Flat, width, col)
    decreases docs, 0
  {
    if docs != [] {
      ModelessLayout(docs[0], ind, width, col);
      ModelessLayouts(docs[1..], ind, width, ColumnAfter(col, Layout(docs[0], ind, Flat, width, col)));
    }
  }

  lemma {:induction false} SettledStays(d: Doc, ind: nat, width: nat, col: nat)
    requires Settled(d, ind, width, col)
    ensures Layout(d, ind, Flat, width, col) == FlatPieces(d, ind)
    decreases d, 1
  {
    hide ColumnAfter, FlatFits;
    match d
    case Concat(docs) => SettledAllStay(docs, ind, width, col);
    case Indent(n, inner) => SettledStays(inner, ind + n, width, col);
    case Group(inner) =>
      SettledStays(inner, ind, width, col);
      if Modeless(inner) {
        ModelessLayout(inner, ind, width, col);
      }
    case IfBreak(flat, _) => SettledStays(flat, ind, width, col);
    case Fill(items) =>
      if items != [] {
        SettledStays(items[0], ind, width, col);
        SettledRestStays(items[1..], ind, width, FlatColumn(items[0], ind, col));
      }
    case _ =>
  }

  lemma {:induction false} SettledAllStay(docs: seq<Doc>, ind: nat, width: nat, col: nat)
    requires SettledAll(docs, ind, width, col)
    ensures LayoutAll(docs, ind, Flat, width, col) == FlatPiecesAll(docs, ind)
    decreases docs, 0
  {
    if docs != [] {
      SettledStays(docs[0], ind, width, col);
      SettledAllStay(docs[1..], ind, width, FlatColumn(docs[0], ind, col));
    }
  }

  lemma {:induction false} SettledRestStays(items: seq<Doc>, ind: nat, width: nat, col: nat)
    requires SettledRest(items, ind, width, col)
    ensures LayoutRest(items, ind, width, col) == FlatPiecesRest(items, ind)
    decreases items, 0
  {
    if items != [] {
      SettledStays(items[0], ind, width, col + 1);
      SettledRestStays(items[1..], ind, width, FlatColumn(items[0], ind, col + 1));
    }
  }

  // ----- without hard breaks the flat layout is one line -----

  lemma {:induction false} FlatPiecesSay(d: Doc, ind: nat)
    requires NoHardline(d)
    ensures Says(FlatPieces(d, ind), FlatText(d))
    decreases d, 1
  {
    match d
    case Concat(docs) => FlatPiecesSayAll(docs, ind);
    case Indent(n, inner) => FlatPiecesSay(inner, ind + n);
    case Group(inner) => FlatPiecesSay(inner, ind);
    case IfBreak(flat, _) => FlatPiecesSay(flat, ind);
    case Fill(items) =>
      if items != [] {
        assert NoHardlines(items);
        FlatPiecesSay(items[0], ind);
        FlatPiecesSayRest(items[1..], ind);
        SaysBoth(FlatPieces(items[0], ind), FlatText(items[0]), FlatPiecesRest(items[1..], ind), FlatRest(items[1..]));
      }
    case _ =>
  }

  lemma {:induction false} FlatPiecesSayAll(docs: seq<Doc>, ind: nat)
    requires NoHardlines(docs)
    ensures Says(FlatPiecesAll(docs, ind), FlatAll(docs))
    decreases docs, 0
  {
    if docs != [] {
      FlatPiecesSay(docs[0], ind);
      FlatPiecesSayAll(docs[1..], ind);
      SaysBoth(FlatPieces(docs[0], ind), FlatText(docs[0]), FlatPiecesAll(docs[1..], ind), FlatAll(docs[1..]));
    }
  }

  lemma {:induction false} FlatPiecesSayRest(items: seq<Doc>, ind: nat)
    requires NoHardlines(items)
    ensures Says(FlatPiecesRest(items, ind), FlatRest(items))
    decreases items, 0
  {
    if items != [] {
      var item := FlatPieces(items[0], ind);
      FlatPiecesSay(items[0], ind);
      FlatPiecesSayRest(items[1..], ind);
      SaysBoth([Blank], " ", item, FlatText(items[0]));
      SaysBoth([Blank] + item, " " + FlatText(items[0]), FlatPiecesRest(items[1..], ind), FlatRest(items[1..]));
    }
  }

  lemma FlatColumnByLength(d: Doc, ind: nat, col: nat)
    requires NoHardline(d)
    ensures FlatColumn(d, ind, col) == col + |FlatText(d)|
  {
    FlatPiecesSay(d, ind);
    LineColumn(col, FlatPieces(d, ind));
  }

  // ----- unsettled documents break more lines -----

  /** How many lines the pieces end. */
  function Breaks(pieces: seq<Piece>): nat {
    if pieces == [] then 0 else (if pieces[0].Newline? then 1 else 0) + Breaks(pieces[1..])
  }

  lemma {:induction false} BreaksJoin(a: seq<Piece>, b: seq<Piece>)
    ensures Breaks(a + b) == Breaks(a) + Breaks(b)
  {
    if a == [] {
      assert a + b == b;
    } else {
      BreaksJoin(a[1..], b);
      assert (a + b)[1..] == a[1..] + b;
    }
  }

  lemma {:induction false} OneLineBreaksNone(pieces: seq<Piece>)
    ensures OneLine(pieces) <==> Breaks(pieces) == 0
  {
    if pieces != [] {
      OneLineBreaksNone(pieces[1..]);
      assert pieces == [pieces[0]] + pieces[1..];
    }
  }

  lemma {:induction false} BreaksItself(d: Doc, ind: nat, width: nat, col: nat)
    requires MustBreak(d)
    ensures Breaks(Layout(d, ind, Break, width, col)) > 0
    decreases d, 1
  {
    match d
    case IfBreak(_, broken) => BreaksItself(broken, ind, width, col);
    case Concat(docs) => OneBreaks(docs, ind, width, col);
    case Indent(n, inner) => BreaksItself(inner, ind + n, width, col);
    case _ =>
  }

  lemma {:induction false} OneBreaks(docs: seq<Doc>, ind: nat, width: nat, col: nat)
    requires SomeMustBreak(docs)
    ensures Breaks(LayoutAll(docs, ind, Break, width, col)) > 0
    decreases docs, 0
  {
    var first := Layout(docs[0], ind, Break, width, col);
    BreaksJoin(first, LayoutAll(docs[1..], ind, Break, width, ColumnAfter(col, first)));
    if MustBreak(docs[0]) {
      BreaksItself(docs[0], ind, width, col);
    } else {
      OneBreaks(docs[1..], ind, width, ColumnAfter(col, first));
    }
  }

  /** The pieces end at least as many lines as the flat ones, and more where something is unsettled. */
  ghost predicate Exceeds(pieces: seq<Piece>, flat: seq<Piece>, settled: bool) {
    Breaks(pieces) >= Breaks(flat) && (settled || Breaks(pieces) > Breaks(flat))
  }

  lemma ExceedsBoth(a: seq<Piece>, flatA: seq<Piece>, settledA: bool, b: seq<Piece>, flatB: seq<Piece>, settledB: bool)
    requires Exceeds(a, flatA, settledA) && Exceeds(b, flatB, settledB)
    ensures Exceeds(a + b, flatA + flatB, settledA && settledB)
  {
    BreaksJoin(a, b);
    BreaksJoin(flatA, flatB);
  }

  lemma {:induction false} FlatBreaksLeast(d: Doc, ind: nat, width: nat, col: nat)
    requires GroupsShow(d)
    ensures Exceeds(Layout(d, ind, Flat, width, col), FlatPieces(d, ind), Settled(d, ind, width, col))
    decreases d, 1
  {
    hide ColumnAfter, FlatFits;
    match d
    case Concat(docs) => FlatBreaksLeastAll(docs, ind, width, col);
    case Indent(n, inner) => FlatBreaksLeast(inner, ind + n, width, col);
    case Group(inner) => GroupBreaksMore(inner, ind, width, col);
    case IfBreak(flat, _) => FlatBreaksLeast(flat, ind, width, col);
    case Fill(items) =>
      if items != [] {
        FillBreaksMore(items, ind, width, col);
      }
    case _ =>
  }

  lemma {:induction false} GroupBreaksMore(inner: Doc, ind: nat, width: nat, col: nat)
    requires GroupsShow(Group(inner))
    ensures Exceeds(Layout(Group(inner), ind, Flat, width, col), FlatPieces(inner, ind),
                    Settled(Group(inner), ind, width, col))
    decreases inner, 2
  {
    hide FlatPieces, Breaks;
    if Modeless(inner) || FlatFits(inner, Left(width, col)) {
      FlatBreaksLeast(inner, ind, width, col);
      if Modeless(inner) {
        ModelessLayout(inner, ind, width, col);
      }
    } else {
      BreaksItself(inner, ind, width, col);
      FlatPiecesSay(inner, ind);
      OneLineBreaksNone(FlatPieces(inner, ind));
    }
  }

  lemma {:induction false} FlatBreaksLeastAll(docs: seq<Doc>, ind: nat, width: nat, col: nat)
    requires AllGroupsShow(docs)
    ensures Exceeds(LayoutAll(docs, ind, Flat, width, col), FlatPiecesAll(docs, ind),
                    SettledAll(docs, ind, width, col))
    decreases docs, 0
  {
    if docs != [] {
      hide Layout, FlatPieces, Settled, GroupsShow, Exceeds, ColumnAfter;
      var first := Layout(docs[0], ind, Flat, width, col);
      var next := ColumnAfter(col, first);
      FlatBreaksLeast(docs[0], ind, width, col);
      FlatBreaksLeastAll(docs[1..], ind, width, next);
      if Settled(docs[0], ind, width, col) {
        SettledStays(docs[0], ind, width, col);
      }
      ExceedsBoth(first, FlatPieces(docs[0], ind), Settled(docs[0], ind, width, col),
                  LayoutAll(docs[1..], ind, Flat, width, next), FlatPiecesAll(docs[1..], ind),
                  SettledAll(docs[1..], ind, width, next));
    }
  }

  lemma {:induction false} FillBreaksMore(items: seq<Doc>, ind: nat, width: nat, col: nat)
    requires items != [] && AllGroupsShow(items)
    ensures Exceeds(Layout(Fill(items), ind, Flat, width, col), FlatPieces(Fill(items), ind),
                    Settled(Fill(items), ind, width, col))
    decreases items, 1
  {
    hide Exceeds, ColumnAfter, LayoutRest, FlatPiecesRest, SettledRest;
    var first := Layout(items[0], ind, Flat, width, col);
    var next := ColumnAfter(col, first);
    FlatBreaksLeast(items[0], ind, width, col);
    FlatBreaksLeastRest(items[1..], ind, width, next);
    if Settled(items[0], ind, width, col) {
      SettledStays(items[0], ind, width, col);
    }
    ExceedsBoth(first, FlatPieces(items[0], ind), Settled(items[0], ind, width, col),
                LayoutRest(items[1..], ind, width, next), FlatPiecesRest(items[1..], ind),
                SettledRest(items[1..], ind, width, next));
  }

  lemma SeparatorBreaks(item: Doc, ind: nat, width: nat, col: nat)
    ensures Exceeds([Separator(item, ind, width, col)], [Blank], FlatFits(item, Left(width, col + 1)))
    ensures FlatFits(item, Left(width, col + 1)) ==> ColumnAfterPiece(col, Separator(item, ind, width, col)) == col + 1
  {
    assert Breaks([Blank]) == 0 && Breaks([Newline(ind)]) == 1;
  }

  lemma {:induction false} FlatBreaksLeastRest(items: seq<Doc>, ind: nat, width: nat, col: nat)
    requires AllGroupsShow(items)
    ensures Exceeds(LayoutRest(items, ind, width, col), FlatPiecesRest(items, ind), SettledRest(items, ind, width, col))
    decreases items, 0
  {
    if items != [] {
      hide Layout, FlatPieces, Settled, GroupsShow, Exceeds, ColumnAfter, FlatFits, Separator;
      var sep := Separator(items[0], ind, width, col);
      var at := ColumnAfterPiece(col, sep);
      var item := Layout(items[0], ind, Flat, width, at);
      var next := ColumnAfter(at, item);
      SeparatorBreaks(items[0], ind, width, col);
      FlatBreaksLeast(items[0], ind, width, at);
      FlatBreaksLeastRest(items[1..], ind, width, next);
      if Settled(items[0], ind, width, at) {
        SettledStays(items[0], ind, width, at);
      }
      ExceedsBoth([sep], [Blank], FlatFits(items[0], Left(width, col + 1)),
                  item, FlatPieces(items[0], ind), Settled(items[0], ind, width, at));
      ExceedsBoth([sep] + item, [Blank] + FlatPieces(items[0], ind),
                  FlatFits(items[0], Left(width, col + 1)) && Settled(items[0], ind, width, at),
                  LayoutRest(items[1..], ind, width, next), FlatPiecesRest(items[1..], ind),
                  SettledRest(items[1..], ind, width, next));
    }
  }

  /** An unsettled document ends more lines than its flat layout. */
  lemma UnsettledBreaks(d: Doc, ind: nat, width: nat, col: nat)
    requires GroupsShow(d) && !Settled(d, ind, width, col)
    ensures Breaks(Layout(d, ind, Flat, width, col)) > Breaks(FlatPieces(d, ind))
  {
    FlatBreaksLeast(d, ind, width, col);
  }

  /** A group that passes the fit check is laid out flat, hard breaks and all, exactly when it is settled. */
  lemma FittingGroupStaysIff(d: Doc, ind: nat, mode: Mode, width: nat, col: nat)
    requires GroupsShow(d) && FlatFits(d, Left(width, col))
    ensures Layout(Group(d), ind, mode, width, col) == FlatPieces(d, ind) <==> Settled(d, ind, width, col)
  {
    if Settled(d, ind, width, col) {
      SettledStays(d, ind, width, col);
    } else {
      UnsettledBreaks(d, ind, width, col);
    }
  }

  /** Without hard breaks that is staying on the line, saying the flat text. */
  lemma FittingGroupIsLineIff(d: Doc, ind: nat, mode: Mode, width: nat, col: nat)
    requires NoHardline(d) && GroupsShow(d) && FlatFits(d, Left(width, col))
    ensures OneLine(Layout(Group(d), ind, mode, width, col)) <==> Settled(d, ind, width, col)
    ensures Settled(d, ind, width, col) ==> Says(Layout(Group(d), ind, mode, width, col), FlatText(d))
  {
    FlatPiecesSay(d, ind);
    if Settled(d, ind, width, col) {
      SettledStays(d, ind, width, col);
    } else {
      UnsettledBreaks(d, ind, width, col);
      OneLineBreaksNone(Layout(d, ind, Flat, width, col));
    }
  }

  // ----- suffixes with no choice behind them -----

  /** No group, and no fill item after a first. */
  predicate NoChoice(d: Doc)
    decreases d, 1
  {
    match d
    case Group(_) => false
    case Concat(docs) => NoChoices(docs)
    case Fill(items) => |items| <= 1 && NoChoices(items)
    case Indent(_, inner) => NoChoice(inner)
    case IfBreak(flat, _) => NoChoice(flat)
    case _ => true
  }

  predicate NoChoices(docs: seq<Doc>)
    decreases docs, 0
  {
    docs == [] || (NoChoice(docs[0]) && NoChoices(docs[1..]))
  }

  /** No group and no later fill item comes after a line suffix, the way trailing comments are placed. */
  predicate SuffixesLast(d: Doc)
    decreases d, 1
  {
    match d
    case Concat(docs) => SuffixesLastAll(docs)
    case Fill(items) => SuffixesLastItems(items)
    case Indent(_, inner) => SuffixesLast(inner)
    case IfBreak(flat, _) => SuffixesLast(flat)
    case Group(inner) => SuffixesLast(inner)
    case _ => true
  }

  predicate SuffixesLastAll(docs: seq<Doc>)
    decreases docs, 0
  {
    docs == [] ||
    (&& SuffixesLast(docs[0])
     && (SuffixLength(docs[0]) == 0 || NoChoices(docs[1..]))
     && SuffixesLastAll(docs[1..]))
  }

  predicate SuffixesLastItems(items: seq<Doc>)
    decreases items, 0
  {
    items == [] ||
    (SuffixesLast(items[0]) && (SuffixLength(items[0]) == 0 || |items| == 1) && SuffixesLastItems(items[1..]))
  }

  lemma {:induction false} NoChoiceIsSettled(d: Doc, ind: nat, width: nat, col: nat)
    requires NoChoice(d)
    ensures Settled(d, ind, width, col)
    decreases d, 1
  {
    match d
    case Concat(docs) => NoChoicesAreSettled(docs, ind, width, col);
    case Indent(n, inner) => NoChoiceIsSettled(inner, ind + n, width, col);
    case IfBreak(flat, _) => NoChoiceIsSettled(flat, ind, width, col);
    case Fill(items) =>
      if items != [] {
        NoChoiceIsSettled(items[0], ind, width, col);
      }
    case _ =>
  }

  lemma {:induction false} NoChoicesAreSettled(docs: seq<Doc>, ind: nat, width: nat, col: nat)
    requires NoChoices(docs)
    ensures SettledAll(docs, ind, width, col)
    decreases docs, 0
  {
    if docs != [] {
      NoChoiceIsSettled(docs[0], ind, width, col);
      NoChoicesAreSettled(docs[1..], ind, width, FlatColumn(docs[0], ind, col));
    }
  }

  lemma FillExtent(items: seq<Doc>)
    requires items != [] && NoHardline(Fill(items)) && SuffixesLast(Fill(items))
    ensures NoHardline(items[0]) && NoHardlines(items[1..]) && SuffixesLast(items[0]) && SuffixesLastItems(items[1..])
    ensures var first, rest := ExtentOf(items[0], Flat).columns, ExtentOfAll(items[1..], Flat).columns;
            && ExtentOf(Fill(items), Flat).columns == |items| - 1 + first + rest
            && (|items| > 1 ==> first == |FlatText(items[0])|)
  {
    assert NoHardlines(items);
    ExtentIsFlatLength(items[0]);
    ExtentsAreFlatLength(items[1..]);
  }

  lemma FillSettles(items: seq<Doc>, ind: nat, width: nat, col: nat)
    requires items != [] && NoHardline(items[0])
    ensures var next := col + |FlatText(items[0])|;
            && (Settled(items[0], ind, width, col) && SettledRest(items[1..], ind, width, next) ==>
                  Settled(Fill(items), ind, width, col))
            && (|items| == 1 ==> SettledRest(items[1..], ind, width, next))
  {
    FlatColumnByLength(items[0], ind, col);
  }

  /** With nothing to choose behind a suffix, what passes the fit check is settled. */
  lemma {:induction false} SuffixesLastSettle(d: Doc, ind: nat, width: nat, col: nat)
    requires NoHardline(d) && SuffixesLast(d) && FlatFits(d, Left(width, col))
    ensures Settled(d, ind, width, col)
    decreases d, 1
  {
    match d
    case Concat(docs) => SuffixesLastSettleAll(docs, ind, width, col);
    case Indent(n, inner) => SuffixesLastSettle(inner, ind + n, width, col);
    case IfBreak(flat, _) => SuffixesLastSettle(flat, ind, width, col);
    case Group(inner) => SuffixesLastSettle(inner, ind, width, col);
    case Fill(items) =>
      if items != [] {
        SuffixesLastSettleFill(items, ind, width, col);
      }
    case _ =>
  }

  lemma {:induction false} SuffixesLastSettleFill(items: seq<Doc>, ind: nat, width: nat, col: nat)
    requires items != [] && NoHardline(Fill(items)) && SuffixesLast(Fill(items))
    requires FlatFits(Fill(items), Left(width, col))
    ensures Settled(Fill(items), ind, width, col)
    decreases items, 1
  {
    hide Settled, SettledRest, ExtentOf, ExtentOfAll, SuffixesLast, SuffixesLastItems, FlatText, NoHardline,
      NoHardlines;
    FillExtent(items);
    FillSettles(items, ind, width, col);
    SuffixesLastSettle(items[0], ind, width, col);
    if |items| > 1 {
      SuffixesLastSettleItems(items[1..], ind, width, col + |FlatText(items[0])|);
    }
  }

  lemma {:induction false} SuffixesLastSettleAll(docs: seq<Doc>, ind: nat, width: nat, col: nat)
    requires NoHardlines(docs) && SuffixesLastAll(docs) && ExtentOfAll(docs, Flat).columns <= Left(width, col)
    ensures SettledAll(docs, ind, width, col)
    decreases docs, 0
  {
    if docs != [] {
      ExtentIsFlatLength(docs[0]);
      FlatColumnByLength(docs[0], ind, col);
      SuffixesLastSettle(docs[0], ind, width, col);
      if SuffixLength(docs[0]) == 0 {
        SuffixesLastSettleAll(docs[1..], ind, width, FlatColumn(docs[0], ind, col));
      } else {
        NoChoicesAreSettled(docs[1..], ind, width, FlatColumn(docs[0], ind, col));
      }
    }
  }

  lemma {:induction false} SuffixesLastSettleItems(items: seq<Doc>, ind: nat, width: nat, col: nat)
    requires NoHardlines(items) && SuffixesLastItems(items)
    requires ExtentOfAll(items, Flat).columns + |items| <= Left(width, col)
    ensures SettledRest(items, ind, width, col)
    decreases items, 0
  {
    if items != [] {
      ExtentIsFlatLength(items[0]);
      ExtentsAreFlatLength(items[1..]);
      FlatColumnByLength(items[0], ind, col + 1);
      SuffixesLastSettle(items[0], ind, width, col + 1);
      if |items| > 1 {
        SuffixesLastSettleItems(items[1..], ind, width, FlatColumn(items[0], ind, col + 1));
      }
    }
  }

  /** A group whose suffixes come last is one line whenever it passes the fit check, however long the suffixes. */
  lemma SuffixesLastStay(d: Doc, ind: nat, mode: Mode, width: nat, col: nat)
    requires NoHardline(d) && SuffixesLast(d) && FlatFits(d, Left(width, col))
    ensures Says(Layout(Group(d), ind, mode, width, col), FlatText(d))
  {
    SuffixesLastSettle(d, ind, width, col);
    SettledStays(d, ind, width, col);
    FlatPiecesSay(d, ind);
  }

  /** A suffix with a choice behind it can break a group that passed: the check did not count it. */
  lemma SuffixBreaksFittingGroup()
    ensures var d := Concat([LineSuffix("##"), Group(Line)]);
            NoHardline(d) && FlatFits(d, Left(1, 0)) && Print(Layout(Group(d), 0, Break, 1, 0)) == "##\n"
  {
    var d := Concat([LineSuffix("##"), Group(Line)]);
    var tail := [Group(Line)];
    assert d.docs[1..] == tail && tail[1..] == [];
    assert ExtentOfAll(tail, Flat) == Extent(1, false);
    assert LayoutAll(tail, 0, Flat, 1, 2) == [Newline(0)];
    assert Layout(d, 0, Flat, 1, 0) == [Trailing("##")] + LayoutAll(tail, 0, Flat, 1, 2);
    PrintJoins([Trailing("##")], [Newline(0)]);
  }
}

/**
 Where lines break and how far they are indented. The marks of a document list
 its text and every place it may break, each with its own indentation; a layout
 is the marks with one choice made for each group and each fill item.
 */
module RenderMarks {
  import opened Docs
  import opened Render
  import opened RenderFacts
  import opened RenderSuffix

  datatype Mark =
    | Ink(text: string)
    /** A break in every mode. */
    | Always(ind: nat)
    /** A space when flat, a break when broken. */
    | Spaced(ind: nat)
    /** Nothing when flat, a break when broken. */
    | Joint(ind: nat)
    /** A space or a break before a fill item. */
    | Apart(ind: nat)
    /** Laid out flat or broken as one. */
    | Grouped(marks: seq<Mark>)
    /** A fill item, laid out flat. */
    | Item(marks: seq<Mark>)
    | Either(flat: seq<Mark>, broken: seq<Mark>)

  /** The marks of a document that starts at indentation `ind`: every `Indent` around a break adds to it. */
  function Marks(d: Doc, ind: nat): seq<Mark>
    decreases d, 1
  {
    match d
    case Nil => []
    case Text(s) => [Ink(s)]
    case LineSuffix(s) => [Ink(s)]
    case Hardline => [Always(ind)]
    case Line => [Spaced(ind)]
    case Softline => [Joint(ind)]
    case Concat(docs) => MarksOfAll(docs, ind)
    case Indent(n, inner) => Marks(inner, ind + n)
    case Group(inner) => [Grouped(Marks(inner, ind))]
    case Fill(items) => if items == [] then [] else [Item(Marks(items[0], ind))] + MarksOfRest(items[1..], ind)
    case IfBreak(flat, broken) => [Either(Marks(flat, ind), Marks(broken, ind))]
  }

  function MarksOfAll(docs: seq<Doc>, ind: nat): seq<Mark>
    decreases docs, 0
  {
    if docs == [] then [] else Marks(docs[0], ind) + MarksOfAll(docs[1..], ind)
  }

  function MarksOfRest(items: seq<Doc>, ind: nat): seq<Mark>
    decreases items, 0
  {
    if items == [] then [] else [Apart(ind), Item(Marks(items[0], ind))] + MarksOfRest(items[1..], ind)
  }

  /** The pieces are what the mark may become in this mode. */
  ghost predicate Stands(pieces: seq<Piece>, m: Mark, mode: Mode)
    decreases m, 0
  {
    match m
    case Ink(s) => pieces == [Fragment(s)] || pieces == [Trailing(s)]
    case Always(ind) => pieces == [Newline(ind)]
    case Spaced(ind) => pieces == [if mode.Flat? then Blank else Newline(ind)]
    case Joint(ind) => pieces == if mode.Flat? then [] else [Newline(ind)]
    case Apart(ind) => pieces == [Blank] || pieces == [Newline(ind)]
    case Grouped(marks) => Realizes(pieces, marks, Flat) || Realizes(pieces, marks, Break)
    case Item(marks) => Realizes(pieces, marks, Flat)
    case Either(flat, broken) => if mode.Flat? then Realizes(pieces, flat, mode) else Realizes(pieces, broken, mode)
  }

  /** The pieces are what the marks may become, one after the other. */
  ghost predicate Realizes(pieces: seq<Piece>, marks: seq<Mark>, mode: Mode)
    decreases marks, 1
  {
    if marks == [] then pieces == []
    else exists k: nat ::
      k <= |pieces| && Stands(pieces[..k], marks[0], mode) && Realizes(pieces[k..], marks[1..], mode)
  }

  lemma RealizesCons(a: seq<Piece>, m: Mark, b: seq<Piece>, marks: seq<Mark>, mode: Mode)
    requires Stands(a, m, mode) && Realizes(b, marks, mode)
    ensures Realizes(a + b, [m] + marks, mode)
  {
    hide Stands;
    assert (a + b)[..|a|] == a && (a + b)[|a|..] == b && ([m] + marks)[1..] == marks;
  }

  lemma RealizesNothing(mode: Mode)
    ensures Realizes([], [], mode)
  {
  }

  lemma RealizesOne(pieces: seq<Piece>, m: Mark, mode: Mode)
    requires Stands(pieces, m, mode)
    ensures Realizes(pieces, [m], mode)
  {
    hide Stands, Realizes;
    RealizesNothing(mode);
    RealizesCons(pieces, m, [], [], mode);
    assert pieces + [] == pieces && [m] + [] == [m];
  }

  lemma RealizesSplits(a: seq<Piece>, marks: seq<Mark>, mode: Mode) returns (k: nat)
    requires Realizes(a, marks, mode) && marks != []
    ensures k <= |a| && Stands(a[..k], marks[0], mode) && Realizes(a[k..], marks[1..], mode)
  {
    hide Stands;
    k :| k <= |a| && Stands(a[..k], marks[0], mode) && Realizes(a[k..], marks[1..], mode);
  }

  lemma Resplit<T>(a: seq<T>, k: nat, b: seq<T>)
    requires k <= |a|
    ensures a[..k] + (a[k..] + b) == a + b
  {
  }

  lemma RealizesOnlyThat(a: seq<Piece>, b: seq<Piece>, more: seq<Mark>, mode: Mode)
    requires Realizes(a, [], mode) && Realizes(b, more, mode)
    ensures Realizes(a + b, [] + more, mode)
  {
    hide Stands;
    assert a + b == b && [] + more == more;
  }

  lemma {:induction false} RealizesBoth(
    a: seq<Piece>, marks: seq<Mark>, b: seq<Piece>, more: seq<Mark>, mode: Mode)
    requires Realizes(a, marks, mode) && Realizes(b, more, mode)
    ensures Realizes(a + b, marks + more, mode)
  {
    hide Stands, Realizes;
    if marks == [] {
      RealizesOnlyThat(a, b, more, mode);
    } else {
      var k := RealizesSplits(a, marks, mode);
      RealizesBoth(a[k..], marks[1..], b, more, mode);
      RealizesCons(a[..k], marks[0], a[k..] + b, marks[1..] + more, mode);
      Resplit(a, k, b);
      HeadSplit(marks, more);
    }
  }

  /** Every layout realizes the marks: each newline it emits has the indentation of the place that emits it. */
  lemma {:induction false} LayoutRealizes(d: Doc, ind: nat, mode: Mode, width: nat, col: nat)
    ensures Realizes(Layout(d, ind, mode, width, col), Marks(d, ind), mode)
    decreases d, 1
  {
    hide Realizes, ColumnAfter, FlatFits;
    match d
    case Nil => RealizesNothing(mode);
    case Text(s) => RealizesOne([Fragment(s)], Ink(s), mode);
    case LineSuffix(s) => RealizesOne([Trailing(s)], Ink(s), mode);
    case Hardline => RealizesOne([Newline(ind)], Always(ind), mode);
    case Line => RealizesOne(Layout(d, ind, mode, width, col), Spaced(ind), mode);
    case Softline => RealizesOne(Layout(d, ind, mode, width, col), Joint(ind), mode);
    case Concat(docs) => LayoutsRealize(docs, ind, mode, width, col);
    case Indent(n, inner) => LayoutRealizes(inner, ind + n, mode, width, col);
    case Group(inner) =>
      LayoutRealizes(inner, ind, if FlatFits(inner, Left(width, col)) then Flat else Break, width, col);
      RealizesOne(Layout(d, ind, mode, width, col), Grouped(Marks(inner, ind)), mode);
    case IfBreak(flat, broken) =>
      LayoutRealizes(if mode.Flat? then flat else broken, ind, mode, width, col);
      RealizesOne(Layout(d, ind, mode, width, col), Either(Marks(flat, ind), Marks(broken, ind)), mode);
    case Fill(items) =>
      if items == [] {
        RealizesNothing(mode);
      } else {
        var first := Layout(items[0], ind, Flat, width, col);
        LayoutRealizes(items[0], ind, Flat, width, col);
        RestRealizes(items[1..], ind, mode, width, ColumnAfter(col, first));
        RealizesCons(first, Item(Marks(items[0], ind)), LayoutRest(items[1..], ind, width, ColumnAfter(col, first)),
                     MarksOfRest(items[1..], ind), mode);
      }
  }

  lemma {:induction false} LayoutsRealize(docs: seq<Doc>, ind: nat, mode: Mode, width: nat, col: nat)
    ensures Realizes(LayoutAll(docs, ind, mode, width, col), MarksOfAll(docs, ind), mode)
    decreases docs, 0
  {
    hide Realizes, ColumnAfter, Layout, Marks;
    if docs == [] {
      RealizesNothing(mode);
    } else {
      var first := Layout(docs[0], ind, mode, width, col);
      var next := ColumnAfter(col, first);
      LayoutRealizes(docs[0], ind, mode, width, col);
      LayoutsRealize(docs[1..], ind, mode, width, next);
      RealizesBoth(first, Marks(docs[0], ind), LayoutAll(docs[1..], ind, mode, width, next),
                   MarksOfAll(docs[1..], ind), mode);
    }
  }

  lemma {:induction false} RestRealizes(items: seq<Doc>, ind: nat, mode: Mode, width: nat, col: nat)
    ensures Realizes(LayoutRest(items, ind, width, col), MarksOfRest(items, ind), mode)
    decreases items, 0
  {
    hide Realizes, ColumnAfter, Layout, Marks, FlatFits;
    if items == [] {
      RealizesNothing(mode);
    } else {
      var sep := Separator(items[0], ind, width, col);
      var at := ColumnAfterPiece(col, sep);
      var item := Layout(items[0], ind, Flat, width, at);
      var next := ColumnAfter(at, item);
      var rest, marks := LayoutRest(items[1..], ind, width, next), MarksOfRest(items[1..], ind);
      LayoutRealizes(items[0], ind, Flat, width, at);
      RestRealizes(items[1..], ind, mode, width, next);
      RealizesCons(item, Item(Marks(items[0], ind)), rest, marks, mode);
      RealizesCons([sep], Apart(ind), item + rest, [Item(Marks(items[0], ind))] + marks, mode);
      assert [sep] + (item + rest) == [sep] + item + rest;
      assert [Apart(ind)] + ([Item(Marks(items[0], ind))] + marks) == [Apart(ind), Item(Marks(items[0], ind))] + marks;
    }
  }

  // ----- indentation and columns in the text -----

  /** A break is printed as a line end and as many spaces as its indentation. */
  lemma {:induction false} SpacesCount(n: nat)
    ensures |Spaces(n)| == n && forall k :: 0 <= k < n ==> Spaces(n)[k] == ' '
  {
    if n > 0 {
      SpacesCount(n - 1);
    }
  }

  predicate OneLined(p: Piece) {
    (p.Fragment? || p.Trailing?) ==> '\n' !in p.text
  }

  /** The last line of the text has `n` characters. */
  ghost predicate LastLineHas(text: string, n: nat) {
    && n <= |text| && (forall k :: |text| - n <= k < |text| ==> text[k] != '\n')
    && (n == |text| || text[|text| - n - 1] == '\n')
  }

  lemma LastLineGrows(text: string, col: nat, p: Piece)
    requires LastLineHas(text, col) && OneLined(p)
    ensures LastLineHas(text + PrintPiece(p), ColumnAfterPiece(col, p))
  {
    if p.Newline? {
      SpacesCount(p.ind);
      var t := "\n" + Spaces(p.ind);
      assert |text + t| - p.ind - 1 == |text| && (text + t)[|text|] == t[0];
    }
  }

  /** The column the renderer keeps is the length of the last line it has written. */
  lemma {:induction false} ColumnIsLastLine(text: string, col: nat, pieces: seq<Piece>)
    requires LastLineHas(text, col) && forall p :: p in pieces ==> OneLined(p)
    ensures LastLineHas(text + Print(pieces), ColumnAfter(col, pieces))
    decreases |pieces|
  {
    hide LastLineHas, OneLined;
    if pieces == [] {
      assert text + "" == text;
    } else {
      assert pieces[0] in pieces;
      LastLineGrows(text, col, pieces[0]);
      ColumnIsLastLine(text + PrintPiece(pieces[0]), ColumnAfterPiece(col, pieces[0]), pieces[1..]);
      Regroup(text, PrintPiece(pieces[0]), Print(pieces[1..]));
    }
  }

  // ----- the fit check up to a hard break -----

  /** The columns the pieces take up to the first line end, suffixes aside. */
  function FirstLine(pieces: seq<Piece>): Extent {
    if pieces == [] then Extent(0, false) else Then(PieceExtent(pieces[0]), FirstLine(pieces[1..]))
  }

  function PieceExtent(p: Piece): Extent {
    match p
    case Fragment(s) => Extent(|s|, false)
    case Trailing(_) => Extent(0, false)
    case Blank => Extent(1, false)
    case Newline(_) => Extent(0, true)
  }

  lemma FirstLineCons(p: Piece, rest: seq<Piece>)
    ensures FirstLine([p] + rest) == Then(PieceExtent(p), FirstLine(rest))
  {
    assert ([p] + rest)[1..] == rest;
  }

  lemma FirstLineNothing(b: seq<Piece>)
    ensures FirstLine([] + b) == Then(FirstLine([]), FirstLine(b))
  {
    assert [] + b == b;
  }

  lemma ThenChains(x: Extent, y: Extent, z: Extent)
    ensures Then(x, Then(y, z)) == Then(Then(x, y), z)
  {
  }

  lemma {:induction false} FirstLineJoins(a: seq<Piece>, b: seq<Piece>)
    ensures FirstLine(a + b) == Then(FirstLine(a), FirstLine(b))
  {
    hide FirstLine, PieceExtent, Then;
    if a == [] {
      FirstLineNothing(b);
    } else {
      FirstLineJoins(a[1..], b);
      HeadSplit(a, b);
      FirstLineCons(a[0], a[1..]);
      FirstLineCons(a[0], a[1..] + b);
      ThenChains(PieceExtent(a[0]), FirstLine(a[1..]), FirstLine(b));
    }
  }

  /** No fill has a hard break in its flat form. */
  predicate SolidFills(d: Doc)
    decreases d, 1
  {
    match d
    case Concat(docs) => AllSolidFills(docs)
    case Indent(_, inner) => SolidFills(inner)
    case Group(inner) => SolidFills(inner)
    case IfBreak(flat, _) => SolidFills(flat)
    case Fill(items) => NoHardlines(items)
    case _ => true
  }

  predicate AllSolidFills(docs: seq<Doc>)
    decreases docs, 0
  {
    docs == [] || (SolidFills(docs[0]) && AllSolidFills(docs[1..]))
  }

  /** The fit check measures the flat layout up to its first hard break, suffixes aside. */
  lemma {:induction false} ExtentIsFirstLine(d: Doc, ind: nat)
    requires SolidFills(d)
    ensures ExtentOf(d, Flat) == FirstLine(FlatPieces(d, ind))
    decreases d, 1
  {
    hide FirstLine;
    match d
    case Nil => FirstLineOf([]);
    case Text(s) => FirstLineOf([Fragment(s)]);
    case LineSuffix(s) => FirstLineOf([Trailing(s)]);
    case Hardline => FirstLineOf([Newline(ind)]);
    case Line => FirstLineOf([Blank]);
    case Softline => FirstLineOf([]);
    case Concat(docs) => ExtentsAreFirstLine(docs, ind);
    case Indent(n, inner) => ExtentIsFirstLine(inner, ind + n);
    case Group(inner) => ExtentIsFirstLine(inner, ind);
    case IfBreak(flat, _) => ExtentIsFirstLine(flat, ind);
    case Fill(items) => SolidExtent(d, ind);
  }

  lemma FirstLineOf(pieces: seq<Piece>)
    requires |pieces| <= 1
    ensures FirstLine(pieces) == if pieces == [] then Extent(0, false) else PieceExtent(pieces[0])
  {
  }

  lemma {:induction false} ExtentsAreFirstLine(docs: seq<Doc>, ind: nat)
    requires AllSolidFills(docs)
    ensures ExtentOfAll(docs, Flat) == FirstLine(FlatPiecesAll(docs, ind))
    decreases docs, 0
  {
    if docs != [] {
      ExtentIsFirstLine(docs[0], ind);
      ExtentsAreFirstLine(docs[1..], ind);
      FirstLineJoins(FlatPieces(docs[0], ind), FlatPiecesAll(docs[1..], ind));
    }
  }

  /** How much of one line comes from suffixes. */
  function TrailingLength(pieces: seq<Piece>): nat {
    if pieces == [] then 0 else (if pieces[0].Trailing? then |pieces[0].text| else 0) + TrailingLength(pieces[1..])
  }

  lemma {:induction false} TrailingJoins(a: seq<Piece>, b: seq<Piece>)
    ensures TrailingLength(a + b) == TrailingLength(a) + TrailingLength(b)
  {
    if a == [] {
      assert a + b == b;
    } else {
      TrailingJoins(a[1..], b);
      assert (a + b)[1..] == a[1..] + b;
    }
  }

  lemma {:induction false} OneLineExtent(pieces: seq<Piece>)
    requires OneLine(pieces)
    ensures !FirstLine(pieces).ended && FirstLine(pieces).columns + TrailingLength(pieces) == |Print(pieces)|
  {
    if pieces != [] {
      assert pieces[0] in pieces;
      OneLineExtent(pieces[1..]);
    }
  }

  lemma {:induction false} TrailingIsSuffix(d: Doc, ind: nat)
    ensures TrailingLength(FlatPieces(d, ind)) == SuffixLength(d)
    decreases d, 1
  {
    match d
    case Concat(docs) => TrailingsAreSuffix(docs, ind);
    case Indent(n, inner) => TrailingIsSuffix(inner, ind + n);
    case Group(inner) => TrailingIsSuffix(inner, ind);
    case IfBreak(flat, _) => TrailingIsSuffix(flat, ind);
    case Fill(items) =>
      if items != [] {
        TrailingIsSuffix(items[0], ind);
        TrailingRestIsSuffix(items[1..], ind);
        TrailingJoins(FlatPieces(items[0], ind), FlatPiecesRest(items[1..], ind));
      }
    case _ =>
  }

  lemma {:induction false} TrailingsAreSuffix(docs: seq<Doc>, ind: nat)
    ensures TrailingLength(FlatPiecesAll(docs, ind)) == SuffixLengths(docs)
    decreases docs, 0
  {
    if docs != [] {
      TrailingIsSuffix(docs[0], ind);
      TrailingsAreSuffix(docs[1..], ind);
      TrailingJoins(FlatPieces(docs[0], ind), FlatPiecesAll(docs[1..], ind));
    }
  }

  lemma {:induction false} TrailingRestIsSuffix(items: seq<Doc>, ind: nat)
    ensures TrailingLength(FlatPiecesRest(items, ind)) == SuffixLengths(items)
    decreases items, 0
  {
    if items != [] {
      TrailingIsSuffix(items[0], ind);
      TrailingRestIsSuffix(items[1..], ind);
      TrailingJoins([Blank], FlatPieces(items[0], ind));
      TrailingJoins([Blank] + FlatPieces(items[0], ind), FlatPiecesRest(items[1..], ind));
    }
  }

  lemma SolidExtent(d: Doc, ind: nat)
    requires NoHardline(d)
    ensures ExtentOf(d, Flat) == FirstLine(FlatPieces(d, ind))
  {
    hide ExtentOf, FirstLine, FlatPieces, SuffixLength, TrailingLength, NoHardline, FlatText;
    FlatPiecesSay(d, ind);
    OneLineExtent(FlatPieces(d, ind));
    TrailingIsSuffix(d, ind);
    ExtentIsFlatLength(d);
  }
}

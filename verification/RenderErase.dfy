/**
 Line suffixes that a newline follows. As long as no group and no later fill
 item is met while a suffix ends the line, the suffixes decide nothing: leaving
 them out of the layout is laying out the document without them.
 */
module RenderErase {
  import opened Docs
  import opened Render

  // ----- leaving suffixes out -----

  function Erased(d: Doc): Doc
    decreases d, 1
  {
    match d
    case LineSuffix(_) => Nil
    case Concat(docs) => Concat(ErasedAll(docs))
    case Fill(items) => Fill(ErasedAll(items))
    case Indent(n, inner) => Indent(n, Erased(inner))
    case Group(inner) => Group(Erased(inner))
    case IfBreak(flat, broken) => IfBreak(Erased(flat), Erased(broken))
    case _ => d
  }

  function ErasedAll(docs: seq<Doc>): (r: seq<Doc>)
    ensures |r| == |docs|
    decreases docs, 0
  {
    if docs == [] then [] else [Erased(docs[0])] + ErasedAll(docs[1..])
  }

  /** The pieces without the line suffixes. */
  function Kept(pieces: seq<Piece>): seq<Piece> {
    if pieces == [] then []
    else KeptPiece(pieces[0]) + Kept(pieces[1..])
  }

  function KeptPiece(p: Piece): seq<Piece> {
    if p.Trailing? then [] else [p]
  }

  lemma KeptCons(p: Piece, rest: seq<Piece>)
    ensures Kept([p] + rest) == KeptPiece(p) + Kept(rest)
  {
    assert ([p] + rest)[1..] == rest;
  }

  lemma KeptNothing(b: seq<Piece>)
    ensures Kept([] + b) == Kept([]) + Kept(b)
  {
    assert [] + b == b;
  }

  lemma {:induction false} KeptJoins(a: seq<Piece>, b: seq<Piece>)
    ensures Kept(a + b) == Kept(a) + Kept(b)
  {
    hide Kept, KeptPiece;
    if a == [] {
      KeptNothing(b);
    } else {
      KeptJoins(a[1..], b);
      HeadSplit(a, b);
      KeptCons(a[0], a[1..]);
      KeptCons(a[0], a[1..] + b);
      Regroup(KeptPiece(a[0]), Kept(a[1..]), Kept(b));
    }
  }

  lemma KeptOne(p: Piece)
    ensures Kept([p]) == if p.Trailing? then [] else [p]
  {
  }

  lemma {:induction false} ErasedExtent(d: Doc, mode: Mode)
    ensures ExtentOf(Erased(d), mode) == ExtentOf(d, mode)
    decreases d, 1
  {
    hide ErasedAll, ExtentOfAll;
    match d
    case Concat(docs) => ErasedExtents(docs, mode);
    case Fill(items) => ErasedExtents(items, Flat);
    case Indent(_, inner) => ErasedExtent(inner, mode);
    case Group(inner) => ErasedExtent(inner, Flat);
    case IfBreak(flat, _) => ErasedExtent(flat, Flat);
    case _ =>
  }

  lemma {:induction false} ErasedExtents(docs: seq<Doc>, mode: Mode)
    ensures ExtentOfAll(ErasedAll(docs), mode) == ExtentOfAll(docs, mode)
    decreases docs, 0
  {
    if docs != [] {
      ErasedExtent(docs[0], mode);
      ErasedExtents(docs[1..], mode);
      ErasedHead(docs);
    }
  }

  lemma ErasedHead(docs: seq<Doc>)
    requires docs != []
    ensures ErasedAll(docs) != [] && ErasedAll(docs)[0] == Erased(docs[0])
    ensures ErasedAll(docs)[1..] == ErasedAll(docs[1..])
  {
  }

  // ----- suffixes with a newline before the next choice -----

  /** Whether a suffix may end the line behind the document, `open` saying so of the line before it. */
  predicate Dangles(d: Doc, mode: Mode, open: bool)
    decreases d, 1
  {
    match d
    case LineSuffix(_) => true
    case Hardline => false
    case Line => mode.Flat? && open
    case Softline => mode.Flat? && open
    case IfBreak(flat, broken) => if mode.Flat? then Dangles(flat, mode, open) else Dangles(broken, mode, open)
    case Concat(docs) => DanglesAll(docs, mode, open)
    case Indent(_, inner) => Dangles(inner, mode, open)
    case Group(inner) => Dangles(inner, Flat, false) || Dangles(inner, Break, false)
    case Fill(items) => if items == [] then open else DanglesRest(items[1..], Dangles(items[0], Flat, open))
    case _ => open
  }

  predicate DanglesAll(docs: seq<Doc>, mode: Mode, open: bool)
    decreases docs, 0
  {
    if docs == [] then open else DanglesAll(docs[1..], mode, Dangles(docs[0], mode, open))
  }

  predicate DanglesRest(items: seq<Doc>, open: bool)
    decreases items, 0
  {
    if items == [] then open else DanglesRest(items[1..], Dangles(items[0], Flat, false))
  }

  /** No group and no later fill item is met while a suffix may end the line. */
  predicate Placed(d: Doc, mode: Mode, open: bool)
    decreases d, 1
  {
    match d
    case IfBreak(flat, broken) => if mode.Flat? then Placed(flat, mode, open) else Placed(broken, mode, open)
    case Concat(docs) => PlacedAll(docs, mode, open)
    case Indent(_, inner) => Placed(inner, mode, open)
    case Group(inner) => !open && Placed(inner, Flat, false) && Placed(inner, Break, false)
    case Fill(items) =>
      items == [] || (Placed(items[0], Flat, open) && PlacedRest(items[1..], Dangles(items[0], Flat, open)))
    case _ => true
  }

  predicate PlacedAll(docs: seq<Doc>, mode: Mode, open: bool)
    decreases docs, 0
  {
    docs == [] || (Placed(docs[0], mode, open) && PlacedAll(docs[1..], mode, Dangles(docs[0], mode, open)))
  }

  predicate PlacedRest(items: seq<Doc>, open: bool)
    decreases items, 0
  {
    items == [] || (!open && Placed(items[0], Flat, false) && PlacedRest(items[1..], Dangles(items[0], Flat, false)))
  }

  // ----- erasure -----

  /** The pieces are the bare ones and suffixes, and come to the same column unless a suffix may end the line. */
  ghost predicate Mirrors(pieces: seq<Piece>, col: nat, bare: seq<Piece>, col': nat, open: bool) {
    Kept(pieces) == bare && (open || ColumnAfter(col, pieces) == ColumnAfter(col', bare))
  }

  lemma MirrorsBoth(a: seq<Piece>, b: seq<Piece>, col: nat, a': seq<Piece>, b': seq<Piece>, col': nat, mid: bool,
                    open: bool)
    requires Mirrors(a, col, a', col', mid) && Mirrors(b, ColumnAfter(col, a), b', ColumnAfter(col', a'), open)
    ensures Mirrors(a + b, col, a' + b', col', open)
  {
    KeptJoins(a, b);
    ColumnJoins(col, a, b);
    ColumnJoins(col', a', b');
  }

  lemma MirrorsPiece(p: Piece, col: nat, col': nat, open: bool)
    requires !p.Trailing? && (open || p.Newline? || col == col')
    ensures Mirrors([p], col, [p], col', open && !p.Newline?)
  {
    KeptOne(p);
    OnePiece(p, col);
    OnePiece(p, col');
  }

  /** Laid out side by side with its erasure, a document differs by its suffixes alone. */
  lemma {:induction false} ErasedLayout(d: Doc, ind: nat, mode: Mode, width: nat, col: nat, col': nat, open: bool)
    requires Placed(d, mode, open) && (open || col == col')
    ensures Mirrors(Layout(d, ind, mode, width, col), col, Layout(Erased(d), ind, mode, width, col'), col',
                    Dangles(d, mode, open))
    decreases d, 1
  {
    hide Mirrors, ColumnAfter, ExtentOf;
    match d
    case Nil => MirrorsNothing(col, col', open);
    case Text(s) => MirrorsPiece(Fragment(s), col, col', open);
    case LineSuffix(s) => MirrorsSuffix(s, col, col');
    case Hardline => MirrorsPiece(Newline(ind), col, col', open);
    case Line => MirrorsPiece(if mode.Flat? then Blank else Newline(ind), col, col', open);
    case Softline =>
      if mode.Flat? {
        MirrorsNothing(col, col', open);
      } else {
        MirrorsPiece(Newline(ind), col, col', open);
      }
    case IfBreak(flat, broken) => ErasedLayout(if mode.Flat? then flat else broken, ind, mode, width, col, col', open);
    case Concat(docs) => ErasedLayouts(docs, ind, mode, width, col, col', open);
    case Indent(n, inner) => ErasedLayout(inner, ind + n, mode, width, col, col', open);
    case Group(inner) =>
      ErasedExtent(inner, Flat);
      var chosen := if FlatFits(inner, Left(width, col)) then Flat else Break;
      ErasedLayout(inner, ind, chosen, width, col, col', false);
      MirrorsOpen(Layout(inner, ind, chosen, width, col), col, Layout(Erased(inner), ind, chosen, width, col'), col',
                  Dangles(inner, chosen, false), Dangles(d, mode, open));
    case Fill(items) =>
      if items == [] {
        MirrorsNothing(col, col', open);
      } else {
        ErasedFill(items, ind, width, col, col', open);
      }
  }

  lemma MirrorsNothing(col: nat, col': nat, open: bool)
    requires open || col == col'
    ensures Mirrors([], col, [], col', open)
  {
  }

  lemma MirrorsSuffix(s: string, col: nat, col': nat)
    ensures Mirrors([Trailing(s)], col, [], col', true)
  {
    KeptOne(Trailing(s));
  }

  lemma MirrorsOpen(pieces: seq<Piece>, col: nat, bare: seq<Piece>, col': nat, open: bool, more: bool)
    requires Mirrors(pieces, col, bare, col', open) && (open ==> more)
    ensures Mirrors(pieces, col, bare, col', more)
  {
  }

  lemma {:induction false} ErasedLayouts(
    docs: seq<Doc>, ind: nat, mode: Mode, width: nat, col: nat, col': nat, open: bool)
    requires PlacedAll(docs, mode, open) && (open || col == col')
    ensures Mirrors(LayoutAll(docs, ind, mode, width, col), col, LayoutAll(ErasedAll(docs), ind, mode, width, col'),
                    col', DanglesAll(docs, mode, open))
    decreases docs, 0
  {
    if docs == [] {
      MirrorsNothing(col, col', open);
    } else {
      hide Layout, Erased, Dangles, Placed;
      var first, bare := Layout(docs[0], ind, mode, width, col), Layout(Erased(docs[0]), ind, mode, width, col');
      var mid := Dangles(docs[0], mode, open);
      ErasedHead(docs);
      ErasedLayout(docs[0], ind, mode, width, col, col', open);
      ErasedLayouts(docs[1..], ind, mode, width, ColumnAfter(col, first), ColumnAfter(col', bare), mid);
      hide Mirrors;
      MirrorsBoth(first, LayoutAll(docs[1..], ind, mode, width, ColumnAfter(col, first)), col,
                  bare, LayoutAll(ErasedAll(docs[1..]), ind, mode, width, ColumnAfter(col', bare)), col',
                  mid, DanglesAll(docs, mode, open));
    }
  }

  lemma {:induction false} ErasedFill(items: seq<Doc>, ind: nat, width: nat, col: nat, col': nat, open: bool)
    requires items != [] && Placed(Fill(items), Flat, open) && (open || col == col')
    ensures Mirrors(Layout(Fill(items), ind, Flat, width, col), col,
                    Layout(Erased(Fill(items)), ind, Flat, width, col'), col', Dangles(Fill(items), Flat, open))
    decreases items, 1
  {
    var first, bare := Layout(items[0], ind, Flat, width, col), Layout(Erased(items[0]), ind, Flat, width, col');
    var mid := Dangles(items[0], Flat, open);
    ErasedHead(items);
    ErasedLayout(items[0], ind, Flat, width, col, col', open);
    ErasedRest(items[1..], ind, width, ColumnAfter(col, first), ColumnAfter(col', bare), mid);
    hide Mirrors, ColumnAfter;
    MirrorsBoth(first, LayoutRest(items[1..], ind, width, ColumnAfter(col, first)), col,
                bare, LayoutRest(ErasedAll(items[1..]), ind, width, ColumnAfter(col', bare)), col',
                mid, DanglesRest(items[1..], mid));
  }

  lemma {:induction false} ErasedRest(items: seq<Doc>, ind: nat, width: nat, col: nat, col': nat, open: bool)
    requires PlacedRest(items, open) && (open || col == col')
    ensures Mirrors(LayoutRest(items, ind, width, col), col, LayoutRest(ErasedAll(items), ind, width, col'), col',
                    DanglesRest(items, open))
    decreases items, 0
  {
    if items == [] {
      MirrorsNothing(col, col', open);
    } else {
      hide Layout, Erased, Dangles, Placed, ExtentOf;
      ErasedHead(items);
      ErasedExtent(items[0], Flat);
      var sep := Separator(items[0], ind, width, col);
      var at := ColumnAfterPiece(col, sep);
      var item, bare := Layout(items[0], ind, Flat, width, at), Layout(Erased(items[0]), ind, Flat, width, at);
      var mid := Dangles(items[0], Flat, false);
      MirrorsPiece(sep, col, col, false);
      OnePiece(sep, col);
      ErasedLayout(items[0], ind, Flat, width, at, at, false);
      ErasedRest(items[1..], ind, width, ColumnAfter(at, item), ColumnAfter(at, bare), mid);
      ColumnJoins(col, [sep], item);
      ColumnJoins(col, [sep], bare);
      hide Mirrors, ColumnAfter;
      MirrorsBoth([sep], item, col, [sep], bare, col, false, mid);
      MirrorsBoth([sep] + item, LayoutRest(items[1..], ind, width, ColumnAfter(at, item)), col,
                  [sep] + bare, LayoutRest(ErasedAll(items[1..]), ind, width, ColumnAfter(at, bare)), col,
                  mid, DanglesRest(items, open));
    }
  }

  /** Leaving placed suffixes out of the layout is laying out the document without them. */
  lemma SuffixesErase(d: Doc, ind: nat, mode: Mode, width: nat, col: nat)
    requires Placed(d, mode, false)
    ensures Kept(Layout(d, ind, mode, width, col)) == Layout(Erased(d), ind, mode, width, col)
  {
    hide Layout, ColumnAfter, Placed;
    ErasedLayout(d, ind, mode, width, col, col, false);
  }

  /** Documents that differ in placed suffixes alone are laid out the same, suffixes aside. */
  lemma SuffixesDecideNothing(d: Doc, e: Doc, ind: nat, mode: Mode, width: nat, col: nat)
    requires Erased(d) == Erased(e) && Placed(d, mode, false) && Placed(e, mode, false)
    ensures Kept(Layout(d, ind, mode, width, col)) == Kept(Layout(e, ind, mode, width, col))
  {
    SuffixesErase(d, ind, mode, width, col);
    SuffixesErase(e, ind, mode, width, col);
  }
}

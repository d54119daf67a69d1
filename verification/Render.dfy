/** The renderer: an explicit-stack loop, and the layout it produces. */
module Render {
  import opened Docs

  /** What the renderer emits, one piece at a time; a line suffix is a trailing piece. */
  datatype Piece = Fragment(text: string) | Trailing(text: string) | Blank | Newline(ind: nat)

  function Spaces(n: nat): string {
    if n == 0 then "" else Spaces(n - 1) + " "
  }

  function PrintPiece(p: Piece): string {
    match p
    case Fragment(s) => s
    case Trailing(s) => s
    case Blank => " "
    case Newline(ind) => "\n" + Spaces(ind)
  }

  function Print(pieces: seq<Piece>): string {
    if pieces == [] then "" else PrintPiece(pieces[0]) + Print(pieces[1..])
  }

  function ColumnAfterPiece(col: nat, p: Piece): nat {
    match p
    case Fragment(s) => col + |s|
    case Trailing(s) => col + |s|
    case Blank => col + 1
    case Newline(ind) => ind
  }

  function ColumnAfter(col: nat, pieces: seq<Piece>): nat
    decreases |pieces|
  {
    if pieces == [] then col else ColumnAfter(ColumnAfterPiece(col, pieces[0]), pieces[1..])
  }

  lemma Regroup<T>(a: seq<T>, b: seq<T>, c: seq<T>)
    ensures a + (b + c) == a + b + c
  {
  }

  lemma HeadSplit<T>(a: seq<T>, b: seq<T>)
    requires a != []
    ensures a == [a[0]] + a[1..] && a + b == [a[0]] + (a[1..] + b)
  {
  }

  lemma PrintCons(p: Piece, rest: seq<Piece>)
    ensures Print([p] + rest) == PrintPiece(p) + Print(rest)
  {
    assert ([p] + rest)[1..] == rest;
  }

  lemma {:induction false} PrintJoins(a: seq<Piece>, b: seq<Piece>)
    ensures Print(a + b) == Print(a) + Print(b)
  {
    if a == [] {
      assert a + b == b;
    } else {
      hide Print;
      PrintJoins(a[1..], b);
      HeadSplit(a, b);
      PrintCons(a[0], a[1..]);
      PrintCons(a[0], a[1..] + b);
      Regroup(PrintPiece(a[0]), Print(a[1..]), Print(b));
    }
  }

  lemma {:induction false} ColumnJoins(col: nat, a: seq<Piece>, b: seq<Piece>)
    ensures ColumnAfter(col, a + b) == ColumnAfter(ColumnAfter(col, a), b)
    decreases |a|
  {
    if a == [] {
      assert a + b == b;
    } else {
      ColumnJoins(ColumnAfterPiece(col, a[0]), a[1..], b);
      assert (a + b)[1..] == a[1..] + b;
    }
  }

  function Left(width: nat, col: nat): nat {
    if col <= width then width - col else 0
  }

  predicate FlatFits(d: Doc, columns: nat) {
    ExtentOf(d, Flat).columns <= columns
  }

  // ----- the layout of a document -----

  /** The pieces a document is laid out in, starting at column `col`. */
  function Layout(d: Doc, ind: nat, mode: Mode, width: nat, col: nat): seq<Piece>
    decreases d, 1
  {
    match d
    case Nil => []
    case Text(s) => [Fragment(s)]
    case LineSuffix(s) => [Trailing(s)]
    case Hardline => [Newline(ind)]
    case Line => if mode.Flat? then [Blank] else [Newline(ind)]
    case Softline => if mode.Flat? then [] else [Newline(ind)]
    case IfBreak(flat, broken) =>
      if mode.Flat? then Layout(flat, ind, mode, width, col) else Layout(broken, ind, mode, width, col)
    case Concat(docs) => LayoutAll(docs, ind, mode, width, col)
    case Indent(n, inner) => Layout(inner, ind + n, mode, width, col)
    case Group(inner) => Layout(inner, ind, if FlatFits(inner, Left(width, col)) then Flat else Break, width, col)
    case Fill(items) =>
      if items == [] then []
      else
        var first := Layout(items[0], ind, Flat, width, col);
        first + LayoutRest(items[1..], ind, width, ColumnAfter(col, first))
  }

  function LayoutAll(docs: seq<Doc>, ind: nat, mode: Mode, width: nat, col: nat): seq<Piece>
    decreases docs, 0
  {
    if docs == [] then []
    else
      var first := Layout(docs[0], ind, mode, width, col);
      first + LayoutAll(docs[1..], ind, mode, width, ColumnAfter(col, first))
  }

  /** What separates a fill item from the one before it. */
  function Separator(item: Doc, ind: nat, width: nat, col: nat): Piece {
    if FlatFits(item, Left(width, col + 1)) then Blank else Newline(ind)
  }

  function LayoutRest(items: seq<Doc>, ind: nat, width: nat, col: nat): seq<Piece>
    decreases items, 0
  {
    if items == [] then []
    else
      var sep := Separator(items[0], ind, width, col);
      var at := ColumnAfterPiece(col, sep);
      var item := Layout(items[0], ind, Flat, width, at);
      [sep] + item + LayoutRest(items[1..], ind, width, ColumnAfter(at, item))
  }

  // ----- the stack machine -----

  function LayoutStack(stack: seq<Entry>, width: nat, col: nat): seq<Piece> {
    if stack == [] then []
    else
      var top := stack[|stack| - 1];
      var first := Layout(top.doc, top.ind, top.mode, width, col);
      first + LayoutStack(stack[..|stack| - 1], width, ColumnAfter(col, first))
  }

  lemma PoppedLayout(stack: seq<Entry>, top: Entry, width: nat, col: nat)
    ensures LayoutStack(stack + [top], width, col) ==
            Layout(top.doc, top.ind, top.mode, width, col) +
            LayoutStack(stack, width, ColumnAfter(col, Layout(top.doc, top.ind, top.mode, width, col)))
  {
    assert (stack + [top])[..|stack|] == stack;
  }

  lemma {:induction false} PushedLayout(stack: seq<Entry>, ind: nat, mode: Mode, docs: seq<Doc>, width: nat, col: nat)
    ensures LayoutStack(Pushed(stack, ind, mode, docs), width, col) ==
            LayoutAll(docs, ind, mode, width, col) +
            LayoutStack(stack, width, ColumnAfter(col, LayoutAll(docs, ind, mode, width, col)))
  {
    if docs == [] {
      assert [] + LayoutStack(stack, width, col) == LayoutStack(stack, width, col);
    } else {
      hide Layout, ColumnAfter, LayoutStack;
      var first := Layout(docs[0], ind, mode, width, col);
      var next := ColumnAfter(col, first);
      var rest := LayoutAll(docs[1..], ind, mode, width, next);
      PoppedLayout(Pushed(stack, ind, mode, docs[1..]), Entry(ind, mode, docs[0]), width, col);
      PushedLayout(stack, ind, mode, docs[1..], width, next);
      ColumnJoins(col, first, rest);
      var tail := LayoutStack(stack, width, ColumnAfter(next, rest));
      Regroup(first, rest, tail);
    }
  }

  /** `out` and `col` have `pieces` still to come before they reach the end. */
  ghost predicate Owes(out: string, col: nat, pieces: seq<Piece>, finalOut: string, finalCol: nat) {
    out + Print(pieces) == finalOut && ColumnAfter(col, pieces) == finalCol
  }

  lemma Paid(out: string, col: nat, first: seq<Piece>, rest: seq<Piece>, finalOut: string, finalCol: nat)
    requires Owes(out, col, first + rest, finalOut, finalCol)
    ensures Owes(out + Print(first), ColumnAfter(col, first), rest, finalOut, finalCol)
  {
    PrintJoins(first, rest);
    ColumnJoins(col, first, rest);
    Regroup(out, Print(first), Print(rest));
  }

  /** One fill item and the ones behind it, once its separator is out. */
  function ItemAndRest(items: seq<Doc>, ind: nat, width: nat, at: nat): seq<Piece>
    requires items != []
  {
    var item := Layout(items[0], ind, Flat, width, at);
    item + LayoutRest(items[1..], ind, width, ColumnAfter(at, item))
  }

  lemma RestSplits(items: seq<Doc>, ind: nat, width: nat, col: nat)
    requires items != []
    ensures var sep := Separator(items[0], ind, width, col);
            LayoutRest(items, ind, width, col) == [sep] + ItemAndRest(items, ind, width, ColumnAfterPiece(col, sep))
  {
    var sep := Separator(items[0], ind, width, col);
    var at := ColumnAfterPiece(col, sep);
    var item := Layout(items[0], ind, Flat, width, at);
    Regroup([sep], item, LayoutRest(items[1..], ind, width, ColumnAfter(at, item)));
  }

  /** The same for the stack of documents still to be laid out. */
  ghost predicate StackOwes(out: string, col: nat, stack: seq<Entry>, width: nat, finalOut: string, finalCol: nat) {
    Owes(out, col, LayoutStack(stack, width, col), finalOut, finalCol)
  }

  function LayoutOf(e: Entry, width: nat, col: nat): seq<Piece> {
    Layout(e.doc, e.ind, e.mode, width, col)
  }

  lemma StackBegins(out: string, col: nat, e: Entry, width: nat)
    ensures StackOwes(out, col, [e], width, out + Print(LayoutOf(e, width, col)),
            ColumnAfter(col, LayoutOf(e, width, col)))
    ensures StackSize([e]) == Size(e.doc)
  {
    hide Layout, Print, ColumnAfter, ExtentOf, Size;
    PoppedLayout([], e, width, col);
    PoppedExtent([], e);
    assert [] + [e] == [e] && LayoutOf(e, width, col) + [] == LayoutOf(e, width, col);
  }

  lemma StackEnds(out: string, col: nat, width: nat, finalOut: string, finalCol: nat)
    requires StackOwes(out, col, [], width, finalOut, finalCol)
    ensures out == finalOut && col == finalCol
  {
  }

  /** The pieces of the top entry have been emitted. */
  lemma TopEmitted(out: string, col: nat, stack: seq<Entry>, top: Entry, width: nat, finalOut: string, finalCol: nat)
    requires StackOwes(out, col, stack + [top], width, finalOut, finalCol)
    ensures StackOwes(out + Print(LayoutOf(top, width, col)), ColumnAfter(col, LayoutOf(top, width, col)), stack,
            width, finalOut, finalCol)
  {
    PoppedLayout(stack, top, width, col);
    Paid(out, col, LayoutOf(top, width, col),
         LayoutStack(stack, width, ColumnAfter(col, LayoutOf(top, width, col))), finalOut, finalCol);
  }

  predicate IsWrapper(d: Doc) {
    d.IfBreak? || d.Indent? || d.Group?
  }

  /** What a wrapper stands for at this column. */
  function Unwrapped(e: Entry, width: nat, col: nat): Entry
    requires IsWrapper(e.doc)
  {
    match e.doc
    case IfBreak(flat, broken) => Entry(e.ind, e.mode, if e.mode.Flat? then flat else broken)
    case Indent(n, inner) => Entry(e.ind + n, e.mode, inner)
    case Group(inner) => Entry(e.ind, if FlatFits(inner, Left(width, col)) then Flat else Break, inner)
  }

  lemma UnwrappedLayout(e: Entry, width: nat, col: nat)
    requires IsWrapper(e.doc)
    ensures LayoutOf(Unwrapped(e, width, col), width, col) == LayoutOf(e, width, col)
    ensures Size(Unwrapped(e, width, col).doc) < Size(e.doc)
  {
  }

  /** The top entry gives way to what it stands for. */
  lemma TopUnwrapped(out: string, col: nat, stack: seq<Entry>, top: Entry, width: nat, finalOut: string, finalCol: nat)
    requires IsWrapper(top.doc) && StackOwes(out, col, stack + [top], width, finalOut, finalCol)
    ensures StackOwes(out, col, stack + [Unwrapped(top, width, col)], width, finalOut, finalCol)
    ensures StackSize(stack + [Unwrapped(top, width, col)]) < StackSize(stack + [top])
  {
    var other := Unwrapped(top, width, col);
    UnwrappedLayout(top, width, col);
    PoppedLayout(stack, top, width, col);
    PoppedLayout(stack, other, width, col);
    PoppedExtent(stack, top);
    PoppedExtent(stack, other);
  }

  /** The top entry gives way to its parts. */
  lemma TopOpened(
    out: string, col: nat, stack: seq<Entry>, top: Entry, docs: seq<Doc>, width: nat, finalOut: string, finalCol: nat)
    requires top.doc == Concat(docs)
    requires StackOwes(out, col, stack + [top], width, finalOut, finalCol)
    ensures StackOwes(out, col, Pushed(stack, top.ind, top.mode, docs), width, finalOut, finalCol)
    ensures StackSize(Pushed(stack, top.ind, top.mode, docs)) == Sizes(docs) + StackSize(stack)
  {
    PoppedLayout(stack, top, width, col);
    PushedLayout(stack, top.ind, top.mode, docs, width, col);
    PushedSize(stack, top.ind, top.mode, docs);
  }

  lemma OnePiece(p: Piece, col: nat)
    ensures Print([p]) == PrintPiece(p) && ColumnAfter(col, [p]) == ColumnAfterPiece(col, p)
  {
  }

  lemma SizesMember(docs: seq<Doc>, i: nat)
    requires i < |docs|
    ensures Size(docs[i]) <= Sizes(docs)
  {
    if i > 0 {
      SizesMember(docs[1..], i - 1);
    }
  }

  /** What a fill still owes before its `i`-th item. */
  ghost predicate FillOwes(
    out: string, col: nat, items: seq<Doc>, i: nat, ind: nat, width: nat, finalOut: string, finalCol: nat)
    requires i <= |items|
  {
    if i == 0 then Owes(out, col, Layout(Fill(items), ind, Flat, width, col), finalOut, finalCol)
    else Owes(out, col, LayoutRest(items[i..], ind, width, col), finalOut, finalCol)
  }

  /** The item has been laid out at its place. */
  lemma ItemEmitted(
    out: string, col: nat, items: seq<Doc>, i: nat, ind: nat, width: nat, finalOut: string, finalCol: nat)
    requires i < |items|
    requires Owes(out, col, ItemAndRest(items[i..], ind, width, col), finalOut, finalCol)
    ensures var item := Layout(items[i], ind, Flat, width, col);
            FillOwes(out + Print(item), ColumnAfter(col, item), items, i + 1, ind, width, finalOut, finalCol)
  {
    assert items[i..][1..] == items[i + 1..];
    var item := Layout(items[i], ind, Flat, width, col);
    Paid(out, col, item, LayoutRest(items[i + 1..], ind, width, ColumnAfter(col, item)), finalOut, finalCol);
  }

  /** The separator before the item has been emitted. */
  lemma SeparatorEmitted(
    out: string, col: nat, items: seq<Doc>, i: nat, ind: nat, width: nat, finalOut: string, finalCol: nat)
    requires 0 < i < |items| && FillOwes(out, col, items, i, ind, width, finalOut, finalCol)
    ensures var sep := Separator(items[i], ind, width, col);
            Owes(out + PrintPiece(sep), ColumnAfterPiece(col, sep),
                 ItemAndRest(items[i..], ind, width, ColumnAfterPiece(col, sep)), finalOut, finalCol)
  {
    var sep := Separator(items[i], ind, width, col);
    RestSplits(items[i..], ind, width, col);
    Paid(out, col, [sep], ItemAndRest(items[i..], ind, width, ColumnAfterPiece(col, sep)), finalOut, finalCol);
    OnePiece(sep, col);
  }

  lemma FillIgnoresMode(items: seq<Doc>, ind: nat, mode: Mode, width: nat, col: nat)
    ensures Layout(Fill(items), ind, mode, width, col) == Layout(Fill(items), ind, Flat, width, col)
  {
  }

  predicate IsLeaf(d: Doc) {
    d.Nil? || d.Text? || d.LineSuffix? || d.Hardline? || d.Line? || d.Softline?
  }

  class Output {
    var out: string
    var col: nat

    constructor ()
      ensures out == "" && col == 0
    {
      out, col := "", 0;
    }

    method EmitNewline(ind: nat)
      modifies this
      ensures out == old(out) + PrintPiece(Newline(ind)) && col == ind
    {
      out := out + "\n";
      for i := 0 to ind
        invariant out == old(out) + "\n" + Spaces(i)
      {
        out := out + " ";
      }
      col := ind;
    }

    method Emit(p: Piece)
      modifies this
      ensures out == old(out) + Print([p]) && col == ColumnAfter(old(col), [p])
    {
      OnePiece(p, col);
      match p
      case Fragment(s) => out, col := out + s, col + |s|;
      case Trailing(s) => out, col := out + s, col + |s|;
      case Blank => out, col := out + " ", col + 1;
      case Newline(ind) => EmitNewline(ind);
    }

    /** A document with no parts, in the mode it is met in. */
    method EmitLeaf(e: Entry, ghost width: nat)
      requires IsLeaf(e.doc)
      modifies this
      ensures out == old(out) + Print(LayoutOf(e, width, old(col)))
      ensures col == ColumnAfter(old(col), LayoutOf(e, width, old(col)))
    {
      match e.doc
      case Text(s) => Emit(Fragment(s));
      case LineSuffix(s) => Emit(Trailing(s));
      case Hardline => Emit(Newline(e.ind));
      case Line => Emit(if e.mode.Flat? then Blank else Newline(e.ind));
      case Softline =>
        if e.mode.Break? {
          Emit(Newline(e.ind));
        }
      case _ =>
    }

    /** Pack items left to right, breaking before one that does not fit. */
    method RenderFill(ind: nat, items: seq<Doc>, width: nat)
      modifies this
      ensures out == old(out) + Print(Layout(Fill(items), ind, Flat, width, old(col)))
      ensures col == ColumnAfter(old(col), Layout(Fill(items), ind, Flat, width, old(col)))
      decreases 1 + Sizes(items)
    {
      ghost var all := Layout(Fill(items), ind, Flat, width, col);
      ghost var finalOut, finalCol := out + Print(all), ColumnAfter(col, all);
      for i := 0 to |items|
        invariant FillOwes(out, col, items, i, ind, width, finalOut, finalCol)
      {
        SizesMember(items, i);
        if i > 0 {
          SeparatorEmitted(out, col, items, i, ind, width, finalOut, finalCol);
          var fits := Fits(Left(width, col + 1), Entry(ind, Flat, items[i]));
          OnePiece(Separator(items[i], ind, width, col), col);
          Emit(if fits then Blank else Newline(ind));
        }
        ItemEmitted(out, col, items, i, ind, width, finalOut, finalCol);
        RenderDocInto(ind, Flat, items[i], width);
      }
      assert items[|items|..] == [];
    }

    /** Lay the document out on an explicit stack. */
    method RenderDocInto(ind: nat, mode: Mode, doc: Doc, width: nat)
      modifies this
      ensures out == old(out) + Print(Layout(doc, ind, mode, width, old(col)))
      ensures col == ColumnAfter(old(col), Layout(doc, ind, mode, width, old(col)))
      decreases Size(doc)
    {
      hide StackOwes, StackSize, Layout, Print, ColumnAfter, ExtentOfStack, Sizes;
      var stack := [Entry(ind, mode, doc)];
      ghost var all := Layout(doc, ind, mode, width, col);
      ghost var finalOut, finalCol := out + Print(all), ColumnAfter(col, all);
      StackBegins(out, col, stack[0], width);
      while stack != []
        invariant StackOwes(out, col, stack, width, finalOut, finalCol)
        invariant StackSize(stack) <= Size(doc)
        decreases StackSize(stack)
      {
        var top := stack[|stack| - 1];
        assert stack == stack[..|stack| - 1] + [top];
        stack := stack[..|stack| - 1];
        PoppedExtent(stack, top);
        if IsLeaf(top.doc) {
          TopEmitted(out, col, stack, top, width, finalOut, finalCol);
          EmitLeaf(top, width);
          continue;
        }
        match top.doc
        case IfBreak(flat, broken) =>
          TopUnwrapped(out, col, stack, top, width, finalOut, finalCol);
          if top.mode.Flat? {
            stack := stack + [Entry(top.ind, top.mode, flat)];
          } else {
            stack := stack + [Entry(top.ind, top.mode, broken)];
          }
        case Concat(docs) =>
          TopOpened(out, col, stack, top, docs, width, finalOut, finalCol);
          stack := PushReversed(stack, top.ind, top.mode, docs);
        case Indent(n, inner) =>
          TopUnwrapped(out, col, stack, top, width, finalOut, finalCol);
          stack := stack + [Entry(top.ind + n, top.mode, inner)];
        case Group(inner) =>
          TopUnwrapped(out, col, stack, top, width, finalOut, finalCol);
          var fits := Fits(Left(width, col), Entry(top.ind, Flat, inner));
          stack := stack + [Entry(top.ind, if fits then Flat else Break, inner)];
        case Fill(items) =>
          TopEmitted(out, col, stack, top, width, finalOut, finalCol);
          FillIgnoresMode(items, top.ind, top.mode, width, col);
          RenderFill(top.ind, items, width);
      }
      StackEnds(out, col, width, finalOut, finalCol);
    }
  }

  /** The text of a document from an empty line. */
  method RenderDoc(doc: Doc, width: nat) returns (text: string)
    ensures text == Print(Layout(doc, 0, Break, width, 0))
  {
    var output := new Output();
    output.RenderDocInto(0, Break, doc, width);
    text := output.out;
  }
}

/**
 The Wadler-Lindig document algebra with dense fills. Columns count bytes, so
 a text fragment is a string of single-byte characters.
 */
module Docs {

  datatype Doc =
    | Nil
    | Text(text: string)
    | LineSuffix(text: string)
    | Hardline
    | Line
    | Softline
    | Concat(docs: seq<Doc>)
    | Indent(spaces: nat, inner: Doc)
    | Group(inner: Doc)
    | Fill(items: seq<Doc>)
    | IfBreak(flat: Doc, broken: Doc)

  datatype Mode = Flat | Break

  // ----- one flat-layout semantics -----

  /** What the document says on one line. */
  function FlatText(d: Doc): string
    decreases d, 1
  {
    match d
    case Nil => ""
    case Text(s) => s
    case LineSuffix(s) => s
    case Hardline => "\n"
    case Line => " "
    case Softline => ""
    case Concat(docs) => FlatAll(docs)
    case Indent(_, inner) => FlatText(inner)
    case Group(inner) => FlatText(inner)
    case Fill(items) => if items == [] then "" else FlatText(items[0]) + FlatRest(items[1..])
    case IfBreak(flat, _) => FlatText(flat)
  }

  function FlatAll(docs: seq<Doc>): string
    decreases docs, 0
  {
    if docs == [] then "" else FlatText(docs[0]) + FlatAll(docs[1..])
  }

  /** The items of a fill after the first, each behind one space. */
  function FlatRest(items: seq<Doc>): string
    decreases items, 0
  {
    if items == [] then "" else " " + FlatText(items[0]) + FlatRest(items[1..])
  }

  /** The flat layout meets no hard line break. */
  predicate NoHardline(d: Doc)
    decreases d, 1
  {
    match d
    case Hardline => false
    case Concat(docs) => NoHardlines(docs)
    case Fill(items) => NoHardlines(items)
    case Indent(_, inner) => NoHardline(inner)
    case Group(inner) => NoHardline(inner)
    case IfBreak(flat, _) => NoHardline(flat)
    case _ => true
  }

  predicate NoHardlines(docs: seq<Doc>)
    decreases docs, 0
  {
    docs == [] || (NoHardline(docs[0]) && NoHardlines(docs[1..]))
  }

  /** How much of the flat text comes from line suffixes. */
  function SuffixLength(d: Doc): nat
    decreases d, 1
  {
    match d
    case LineSuffix(s) => |s|
    case Concat(docs) => SuffixLengths(docs)
    case Fill(items) => SuffixLengths(items)
    case Indent(_, inner) => SuffixLength(inner)
    case Group(inner) => SuffixLength(inner)
    case IfBreak(flat, _) => SuffixLength(flat)
    case _ => 0
  }

  function SuffixLengths(docs: seq<Doc>): nat
    decreases docs, 0
  {
    if docs == [] then 0 else SuffixLength(docs[0]) + SuffixLengths(docs[1..])
  }

  // ----- flatten -----

  function Space(): Doc {
    Text(" ")
  }

  /** `docs` with `sep` between neighbours. */
  function Joined(docs: seq<Doc>, sep: Doc): seq<Doc> {
    if |docs| <= 1 then docs else [docs[0], sep] + Joined(docs[1..], sep)
  }

  method Intersperse(docs: seq<Doc>, sep: Doc) returns (result: Doc)
    ensures result == Concat(Joined(docs, sep))
  {
    var parts: seq<Doc> := [];
    for i := 0 to |docs|
      invariant parts == Joined(docs[..i], sep)
    {
      JoinedSnoc(docs[..i], docs[i], sep);
      assert docs[..i + 1] == docs[..i] + [docs[i]];
      if i > 0 {
        parts := parts + [sep];
      }
      parts := parts + [docs[i]];
    }
    assert docs[..|docs|] == docs;
    result := Concat(parts);
  }

  lemma {:induction false} JoinedSnoc(docs: seq<Doc>, d: Doc, sep: Doc)
    ensures Joined(docs + [d], sep) == if docs == [] then [d] else Joined(docs, sep) + [sep] + [d]
  {
    if |docs| > 1 {
      JoinedSnoc(docs[1..], d, sep);
      assert (docs + [d])[1..] == docs[1..] + [d];
    } else if |docs| == 1 {
      assert (docs + [d])[1..] == [d];
    }
  }

  /** The document with every choice taken flat, so that no width can matter. */
  function Flatten(d: Doc): Doc
    decreases d, 1
  {
    match d
    case Line => Space()
    case Softline => Nil
    case IfBreak(flat, _) => Flatten(flat)
    case Concat(docs) => Concat(FlattenAll(docs))
    case Indent(_, inner) => Flatten(inner)
    case Group(inner) => Flatten(inner)
    case Fill(items) => Concat(Joined(FlattenAll(items), Space()))
    case _ => d
  }

  function FlattenAll(docs: seq<Doc>): (r: seq<Doc>)
    ensures |r| == |docs|
    decreases docs, 0
  {
    if docs == [] then [] else [Flatten(docs[0])] + FlattenAll(docs[1..])
  }

  lemma {:induction false} FixedByFlatten(docs: seq<Doc>)
    requires forall d :: d in docs ==> Flatten(d) == d
    ensures FlattenAll(docs) == docs
  {
    if docs != [] {
      FixedByFlatten(docs[1..]);
    }
  }

  lemma {:induction false} JoinedMembers(docs: seq<Doc>, sep: Doc)
    ensures forall d :: d in Joined(docs, sep) ==> d in docs || d == sep
  {
    if |docs| > 1 {
      JoinedMembers(docs[1..], sep);
    }
  }

  /** Flattening twice changes nothing. */
  lemma {:induction false} FlattenIdempotent(d: Doc)
    ensures Flatten(Flatten(d)) == Flatten(d)
    decreases d, 1
  {
    match d
    case IfBreak(flat, _) => FlattenIdempotent(flat);
    case Concat(docs) =>
      FlattenAllIdempotent(docs);
      FixedByFlatten(FlattenAll(docs));
    case Indent(_, inner) => FlattenIdempotent(inner);
    case Group(inner) => FlattenIdempotent(inner);
    case Fill(items) =>
      FlattenAllIdempotent(items);
      JoinedMembers(FlattenAll(items), Space());
      FixedByFlatten(Joined(FlattenAll(items), Space()));
    case _ =>
  }

  lemma {:induction false} FlattenAllIdempotent(docs: seq<Doc>)
    ensures forall d :: d in FlattenAll(docs) ==> Flatten(d) == d
    decreases docs, 0
  {
    if docs != [] {
      FlattenIdempotent(docs[0]);
      FlattenAllIdempotent(docs[1..]);
    }
  }

  // ----- the fit check -----

  /** How many columns a scan takes, and whether a line break ended it. */
  datatype Extent = Extent(columns: nat, ended: bool)

  function Then(a: Extent, b: Extent): Extent {
    if a.ended then a else Extent(a.columns + b.columns, b.ended)
  }

  function Separators(items: seq<Doc>): nat {
    if items == [] then 0 else |items| - 1
  }

  /** The columns a document takes up to the first line break it must make. */
  function ExtentOf(d: Doc, mode: Mode): Extent
    decreases d, 1
  {
    match d
    case Nil => Extent(0, false)
    case LineSuffix(_) => Extent(0, false)
    case Text(s) => Extent(|s|, false)
    case Hardline => Extent(0, true)
    case Line => if mode.Flat? then Extent(1, false) else Extent(0, true)
    case Softline => Extent(0, mode.Break?)
    case IfBreak(flat, _) => ExtentOf(flat, Flat)
    case Concat(docs) => ExtentOfAll(docs, mode)
    case Indent(_, inner) => ExtentOf(inner, mode)
    case Group(inner) => ExtentOf(inner, Flat)
    case Fill(items) => Then(Extent(Separators(items), false), ExtentOfAll(items, Flat))
  }

  function ExtentOfAll(docs: seq<Doc>, mode: Mode): Extent
    decreases docs, 0
  {
    if docs == [] then Extent(0, false) else Then(ExtentOf(docs[0], mode), ExtentOfAll(docs[1..], mode))
  }

  /** Without a hard break the extent is the flat text, line suffixes aside. */
  lemma {:induction false} ExtentIsFlatLength(d: Doc)
    requires NoHardline(d)
    ensures !ExtentOf(d, Flat).ended && ExtentOf(d, Flat).columns + SuffixLength(d) == |FlatText(d)|
    decreases d, 1
  {
    match d
    case IfBreak(flat, _) => ExtentIsFlatLength(flat);
    case Concat(docs) => ExtentsAreFlatLength(docs);
    case Indent(_, inner) => ExtentIsFlatLength(inner);
    case Group(inner) => ExtentIsFlatLength(inner);
    case Fill(items) =>
      ExtentsAreFlatLength(items);
      if items != [] {
        FlatRestLength(items[1..]);
      }
    case _ =>
  }

  lemma {:induction false} ExtentsAreFlatLength(docs: seq<Doc>)
    requires NoHardlines(docs)
    ensures !ExtentOfAll(docs, Flat).ended && ExtentOfAll(docs, Flat).columns + SuffixLengths(docs) == |FlatAll(docs)|
    decreases docs, 0
  {
    if docs != [] {
      ExtentIsFlatLength(docs[0]);
      ExtentsAreFlatLength(docs[1..]);
    }
  }

  lemma {:induction false} FlatRestLength(items: seq<Doc>)
    ensures |FlatRest(items)| == |FlatAll(items)| + |items|
  {
    if items != [] {
      FlatRestLength(items[1..]);
    }
  }

  datatype Entry = Entry(ind: nat, mode: Mode, doc: Doc)

  /** Node count, the measure of both work-list loops. */
  function Size(d: Doc): nat
    decreases d, 1
  {
    match d
    case Concat(docs) => 2 + Sizes(docs)
    case Indent(_, inner) => 2 + Size(inner)
    case Group(inner) => 2 + Size(inner)
    case Fill(items) => 2 + Sizes(items)
    case IfBreak(flat, broken) => 2 + Size(flat) + Size(broken)
    case _ => 1
  }

  function Sizes(docs: seq<Doc>): nat
    decreases docs, 0
  {
    if docs == [] then 0 else Size(docs[0]) + Sizes(docs[1..])
  }

  function StackSize(stack: seq<Entry>): nat {
    if stack == [] then 0 else Size(stack[|stack| - 1].doc) + StackSize(stack[..|stack| - 1])
  }

  /** `stack` with the documents pushed so that the first one pops first. */
  function Pushed(stack: seq<Entry>, ind: nat, mode: Mode, docs: seq<Doc>): seq<Entry> {
    if docs == [] then stack else Pushed(stack, ind, mode, docs[1..]) + [Entry(ind, mode, docs[0])]
  }

  method PushReversed(stack: seq<Entry>, ind: nat, mode: Mode, docs: seq<Doc>) returns (result: seq<Entry>)
    ensures result == Pushed(stack, ind, mode, docs)
  {
    result := stack;
    var i := |docs|;
    while i > 0
      invariant 0 <= i <= |docs|
      invariant result == Pushed(stack, ind, mode, docs[i..])
    {
      i := i - 1;
      assert docs[i..][1..] == docs[i + 1..];
      result := result + [Entry(ind, mode, docs[i])];
    }
    assert docs[0..] == docs;
  }

  lemma {:induction false} PushedSize(stack: seq<Entry>, ind: nat, mode: Mode, docs: seq<Doc>)
    ensures StackSize(Pushed(stack, ind, mode, docs)) == Sizes(docs) + StackSize(stack)
  {
    if docs != [] {
      PushedSize(stack, ind, mode, docs[1..]);
    }
  }

  /** The extent of a work list, top entry first. */
  function ExtentOfStack(stack: seq<Entry>): Extent {
    if stack == [] then Extent(0, false)
    else
      var top := stack[|stack| - 1];
      Then(ExtentOf(top.doc, top.mode), ExtentOfStack(stack[..|stack| - 1]))
  }

  lemma {:induction false} PushedExtent(stack: seq<Entry>, ind: nat, mode: Mode, docs: seq<Doc>)
    ensures ExtentOfStack(Pushed(stack, ind, mode, docs)) == Then(ExtentOfAll(docs, mode), ExtentOfStack(stack))
  {
    if docs != [] {
      PushedExtent(stack, ind, mode, docs[1..]);
    }
  }

  lemma PoppedExtent(stack: seq<Entry>, top: Entry)
    ensures ExtentOfStack(stack + [top]) == Then(ExtentOf(top.doc, top.mode), ExtentOfStack(stack))
    ensures StackSize(stack + [top]) == Size(top.doc) + StackSize(stack)
  {
    assert (stack + [top])[..|stack|] == stack;
  }

  /** Whether the entry can be rendered flat within the remaining columns. */
  method Fits(columns: nat, entry: Entry) returns (fits: bool)
    ensures fits <==> ExtentOf(entry.doc, entry.mode).columns <= columns
  {
    var remaining := columns;
    var work := [entry];
    ghost var total := ExtentOf(entry.doc, entry.mode).columns;
    PoppedExtent([], entry);
    assert [] + [entry] == work;
    while work != []
      invariant remaining >= 0
      invariant total <= columns <==> ExtentOfStack(work).columns <= remaining
      decreases StackSize(work)
    {
      var top := work[|work| - 1];
      assert work == work[..|work| - 1] + [top];
      work := work[..|work| - 1];
      PoppedExtent(work, top);
      match top.doc
      case Nil =>
      case LineSuffix(_) =>
      case Text(s) =>
        if |s| > remaining {
          return false;
        }
        remaining := remaining - |s|;
      case Hardline =>
        return true;
      case Line =>
        if top.mode.Break? {
          return true;
        }
        if remaining == 0 {
          return false;
        }
        remaining := remaining - 1;
      case Softline =>
        if top.mode.Break? {
          return true;
        }
      case IfBreak(flat, _) =>
        PoppedExtent(work, Entry(top.ind, Flat, flat));
        work := work + [Entry(top.ind, Flat, flat)];
      case Concat(docs) =>
        PushedExtent(work, top.ind, top.mode, docs);
        PushedSize(work, top.ind, top.mode, docs);
        work := PushReversed(work, top.ind, top.mode, docs);
      case Indent(n, inner) =>
        PoppedExtent(work, Entry(top.ind + n, top.mode, inner));
        work := work + [Entry(top.ind + n, top.mode, inner)];
      case Group(inner) =>
        PoppedExtent(work, Entry(top.ind, Flat, inner));
        work := work + [Entry(top.ind, Flat, inner)];
      case Fill(items) =>
        var separators := Separators(items);
        if separators > remaining {
          return false;
        }
        remaining := remaining - separators;
        PushedExtent(work, top.ind, Flat, items);
        PushedSize(work, top.ind, Flat, items);
        work := PushReversed(work, top.ind, Flat, items);
    }
    return true;
  }

  /** The fit check is exact: the flat text, line suffixes aside, against the columns left. */
  lemma FitsIsExact(d: Doc, columns: nat)
    requires NoHardline(d)
    ensures ExtentOf(d, Flat).columns <= columns <==> |FlatText(d)| - SuffixLength(d) <= columns
  {
    ExtentIsFlatLength(d);
  }
}

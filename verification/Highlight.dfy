/**
 The tokens of the documentation highlighter, the HTML it writes for them, and a
 reader of that HTML that gives the source back. A source is its bytes.
 */
module Highlight {
  import opened Wrappers

  const KEYWORDS: seq<string> := [
    "after", "alias", "and", "as", "assert", "break", "cond", "const", "else", "end", "enum",
    "extend", "fail", "false", "fn", "for", "if", "impl", "in", "loop", "match", "not", "or",
    "priv", "protocol", "receive", "rescue", "return", "self", "spawn", "struct", "test", "true",
    "try", "type", "when", "while"]

  const STYLES: seq<string> := ["kw", "ty", "fn", "st", "nm", "cm", "at"]

  type Style = c: string | |c| == 2 witness "kw"

  // ----- characters -----

  predicate Digit(c: char) {
    '0' <= c <= '9'
  }

  predicate Upper(c: char) {
    'A' <= c <= 'Z'
  }

  predicate Letter(c: char) {
    Upper(c) || 'a' <= c <= 'z'
  }

  predicate NameChar(c: char) {
    Letter(c) || Digit(c) || c == '_'
  }

  predicate Blank(c: char) {
    c == ' ' || c == '\t' || c == '\n' || c == '\r' || c as int == 12
  }

  predicate At(code: string, i: nat, text: string) {
    i + |text| <= |code| && code[i..i + |text|] == text
  }

  // ----- where each token ends -----

  function NameEnd(code: string, i: nat): (end: nat)
    requires i <= |code|
    ensures i <= end <= |code|
    ensures forall k :: i <= k < end ==> NameChar(code[k])
    ensures end < |code| ==> !NameChar(code[end])
    decreases |code| - i
  {
    if i < |code| && NameChar(code[i]) then NameEnd(code, i + 1) else i
  }

  function LineEnd(code: string, i: nat): (end: nat)
    requires i <= |code|
    ensures i <= end <= |code|
    ensures forall k :: i <= k < end ==> code[k] != '\n'
    ensures end < |code| ==> code[end] == '\n'
    decreases |code| - i
  {
    if i < |code| && code[i] != '\n' then LineEnd(code, i + 1) else i
  }

  predicate InNumber(code: string, i: nat)
    requires i < |code|
  {
    Digit(code[i]) || code[i] == '_' || (code[i] == '.' && i + 1 < |code| && Digit(code[i + 1]))
  }

  function DecimalEnd(code: string, i: nat): (end: nat)
    requires i <= |code|
    ensures i <= end <= |code|
    ensures forall k :: i <= k < end ==> InNumber(code, k)
    ensures end < |code| ==> !InNumber(code, end)
    decreases |code| - i
  {
    if i < |code| && InNumber(code, i) then DecimalEnd(code, i + 1) else i
  }

  function NumberEnd(code: string, start: nat): (end: nat)
    requires start < |code| && Digit(code[start])
    ensures start < end <= |code|
  {
    if At(code, start, "0x") || At(code, start, "0b") then NameEnd(code, start + 2) else DecimalEnd(code, start)
  }

  /** One past the literal scanned from `i`, possibly past the text after a final backslash. */
  function StringScan(code: string, i: nat, triple: bool): (end: nat)
    ensures i <= end
    decreases |code| - i
  {
    if i >= |code| then i
    else if code[i] == '\\' && !triple then StringScan(code, i + 2, triple)
    else if triple then if At(code, i, "\"\"\"") then i + 3 else StringScan(code, i + 1, triple)
    else if code[i] == '"' then i + 1
    else if code[i] == '\n' then i
    else StringScan(code, i + 1, triple)
  }

  function StringEnd(code: string, start: nat): (end: nat)
    requires start < |code|
    ensures start < end <= |code|
  {
    var triple := At(code, start, "\"\"\"");
    var end := StringScan(code, start + if triple then 3 else 1, triple);
    if end < |code| then end else |code|
  }

  function IdentEnd(code: string, start: nat): (end: nat)
    requires start < |code| && NameChar(code[start])
    ensures start < end <= |code|
  {
    var end := NameEnd(code, start);
    if end < |code| && code[end] == '?' then end + 1 else end
  }

  function NextNonblank(code: string, i: nat): (c: Option<char>)
    requires i <= |code|
    decreases |code| - i
  {
    if i == |code| then None else if Blank(code[i]) then NextNonblank(code, i + 1) else Some(code[i])
  }

  predicate IsKeyword(word: string) {
    word in KEYWORDS
  }

  function IdentStyle(code: string, start: nat, end: nat): (r: Option<Style>)
    requires start < end <= |code|
  {
    var word := code[start..end];
    if word[|word| - 1] != '?' && IsKeyword(word) then Some("kw")
    else if Upper(code[start]) then Some("ty")
    else if NextNonblank(code, end) == Some('(') then Some("fn")
    else None
  }

  datatype Token = Token(end: nat, style: Option<Style>)

  /** The token that starts at `i`. */
  function TokenAt(code: string, i: nat): (t: Token)
    requires i < |code|
    ensures i < t.end <= |code|
  {
    var c := code[i];
    if c == '#' then Token(LineEnd(code, i), Some("cm"))
    else if c == '"' then Token(StringEnd(code, i), Some("st"))
    else if c == '@' then
      var end := NameEnd(code, i + 1);
      if end == i + 1 then Token(end, None) else Token(end, Some("at"))
    else if Digit(c) then Token(NumberEnd(code, i), Some("nm"))
    else if c == '_' || Letter(c) then Token(IdentEnd(code, i), IdentStyle(code, i, IdentEnd(code, i)))
    else Token(i + 1, None)
  }

  // ----- string literals -----

  /** How many backslashes stand directly before `k`, back to `from` at most. */
  function Slashes(code: string, from: nat, k: nat): nat
    requires k <= |code|
  {
    if from < k && code[k - 1] == '\\' then 1 + Slashes(code, from, k - 1) else 0
  }

  /** A quote or line end that no backslash escapes. */
  predicate Stops(code: string, from: nat, k: nat)
    requires k < |code|
  {
    Slashes(code, from, k) % 2 == 0 && (code[k] == '"' || code[k] == '\n')
  }

  ghost predicate NoStop(code: string, from: nat, end: nat)
    requires end <= |code|
  {
    forall k :: from <= k < end ==> !Stops(code, from, k)
  }

  /**
   A literal in single quotes runs over its first unescaped quote, or up to the line or text end if
   that comes first.
   */
  ghost predicate SingleEndsAt(code: string, from: nat, end: nat) {
    && from <= end <= |code|
    && ((end == |code| && NoStop(code, from, end))
        || (end < |code| && NoStop(code, from, end) && Stops(code, from, end) && code[end] == '\n')
        || (from < end && NoStop(code, from, end - 1) && Stops(code, from, end - 1) && code[end - 1] == '"'))
  }

  ghost predicate NoTriple(code: string, from: nat, end: nat) {
    forall k :: from <= k < end ==> !At(code, k, "\"\"\"")
  }

  /** A literal in triple quotes runs over the first closing triple, or to the end of the text. */
  ghost predicate TripleEndsAt(code: string, from: nat, end: nat) {
    && from <= end <= |code|
    && ((end == |code| && NoTriple(code, from, end))
        || (from + 3 <= end && At(code, end - 3, "\"\"\"") && NoTriple(code, from, end - 3)))
  }

  lemma SlashesStep(code: string, from: nat, k: nat)
    requires from <= k < |code|
    ensures Slashes(code, from, k + 1) == if code[k] == '\\' then 1 + Slashes(code, from, k) else 0
  {
  }

  lemma {:induction false} SingleScanEnds(code: string, from: nat, i: nat)
    requires from <= i <= |code| && Slashes(code, from, i) % 2 == 0 && NoStop(code, from, i)
    ensures var end := StringScan(code, i, false);
            SingleEndsAt(code, from, if end < |code| then end else |code|)
    decreases |code| - i
  {
    if i < |code| {
      SlashesStep(code, from, i);
      if code[i] == '\\' {
        if i + 1 < |code| {
          SlashesStep(code, from, i + 1);
          SingleScanEnds(code, from, i + 2);
        }
      } else if code[i] != '"' && code[i] != '\n' {
        SingleScanEnds(code, from, i + 1);
      }
    }
  }

  lemma {:induction false} TripleScanEnds(code: string, from: nat, i: nat)
    requires from <= i <= |code| && NoTriple(code, from, i)
    ensures var end := StringScan(code, i, true);
            TripleEndsAt(code, from, if end < |code| then end else |code|)
    decreases |code| - i
  {
    if i < |code| && !At(code, i, "\"\"\"") {
      TripleScanEnds(code, from, i + 1);
    }
  }

  /** Where a string literal ends, by what it says and not by how it is scanned. */
  lemma StringEndsAt(code: string, start: nat)
    requires start < |code| && code[start] == '"'
    ensures At(code, start, "\"\"\"") ==> TripleEndsAt(code, start + 3, StringEnd(code, start))
    ensures !At(code, start, "\"\"\"") ==> SingleEndsAt(code, start + 1, StringEnd(code, start))
  {
    if At(code, start, "\"\"\"") {
      TripleScanEnds(code, start + 3, start + 3);
    } else {
      SingleScanEnds(code, start + 1, start + 1);
    }
  }

  // ----- markup -----

  function Entity(c: char): string {
    match c
    case '&' => "&amp;"
    case '<' => "&lt;"
    case '>' => "&gt;"
    case '"' => "&quot;"
    case _ => [c]
  }

  function Escaped(text: string): string {
    if text == "" then "" else Escaped(text[..|text| - 1]) + Entity(text[|text| - 1])
  }

  function Opening(style: Style): string {
    "<span class=\"" + style + "\">"
  }

  function Piece(style: Option<Style>, text: string): string {
    match style
    case None => Escaped(text)
    case Some(c) => Opening(c) + Escaped(text) + "</span>"
  }

  /** The HTML of everything from `i` on. */
  function Highlighted(code: string, i: nat): string
    requires i <= |code|
    decreases |code| - i
  {
    if i == |code| then ""
    else
      var t := TokenAt(code, i);
      Piece(t.style, code[i..t.end]) + Highlighted(code, t.end)
  }

  // ----- reading the HTML back -----

  function Prepend(text: string, rest: Option<string>): Option<string> {
    if rest.None? then None else Some(text + rest.value)
  }

  /**
   Erase the tags and decode the entities. Fails on a tag inside a span, a span
   left open, an unknown style or entity, and any unescaped markup character.
   */
  function Read(html: string, inside: bool): Option<string>
    decreases |html|
  {
    if html == "" then if inside then None else Some("")
    else if html[0] == '<' then
      if inside then
        if At(html, 0, "</span>") then Read(html[7..], false) else None
      else if |html| >= 17 && html[13..15] in STYLES && html[..17] == Opening(html[13..15]) then Read(html[17..], true)
      else None
    else if html[0] == '&' then
      if At(html, 0, "&amp;") then Prepend("&", Read(html[5..], inside))
      else if At(html, 0, "&lt;") then Prepend("<", Read(html[4..], inside))
      else if At(html, 0, "&gt;") then Prepend(">", Read(html[4..], inside))
      else if At(html, 0, "&quot;") then Prepend("\"", Read(html[6..], inside))
      else None
    else if html[0] == '>' || html[0] == '"' then None
    else Prepend(html[..1], Read(html[1..], inside))
  }

  lemma Starts(html: string, start: string, rest: string, other: string)
    requires html == start + rest
    ensures At(html, 0, start) && html[|start|..] == rest
    ensures |start| > 1 && |other| > 1 && start[1] != other[1] ==> !At(html, 0, other)
  {
    assert html[0..|start|] == start;
    if At(html, 0, other) && |start| > 1 && |other| > 1 {
      assert html[0..|other|][1] == html[1] == start[1];
    }
  }

  lemma ReadEntity(c: char, rest: string, inside: bool)
    ensures Read(Entity(c) + rest, inside) == Prepend([c], Read(rest, inside))
  {
    var html := Entity(c) + rest;
    Starts(html, Entity(c), rest, "&amp;");
    Starts(html, Entity(c), rest, "&lt;");
    Starts(html, Entity(c), rest, "&gt;");
    assert html[0] == Entity(c)[0] && html[..1] == [html[0]];
  }

  lemma {:induction false} ReadEscaped(text: string, rest: string, inside: bool)
    ensures Read(Escaped(text) + rest, inside) == Prepend(text, Read(rest, inside))
  {
    hide Entity, Read;
    if text == "" {
      assert Escaped(text) + rest == rest;
      PrependNothing(Read(rest, inside));
    } else {
      var n := |text| - 1;
      var last := Entity(text[n]);
      assert Escaped(text) + rest == Escaped(text[..n]) + (last + rest);
      ReadEscaped(text[..n], last + rest, inside);
      ReadEntity(text[n], rest, inside);
      PrependTwice(text[..n], [text[n]], Read(rest, inside));
      assert text == text[..n] + [text[n]];
    }
  }

  lemma PrependNothing(rest: Option<string>)
    ensures Prepend("", rest) == rest
  {
    if rest.Some? {
      assert "" + rest.value == rest.value;
    }
  }

  lemma PrependTwice(a: string, b: string, rest: Option<string>)
    ensures Prepend(a, Prepend(b, rest)) == Prepend(a + b, rest)
  {
    if rest.Some? {
      assert a + (b + rest.value) == (a + b) + rest.value;
    }
  }

  lemma ReadOpening(style: Style, rest: string)
    requires style in STYLES
    ensures Read(Opening(style) + rest, false) == Read(rest, true)
  {
    var html := Opening(style) + rest;
    assert html[13..15] == style && html[..17] == Opening(style) && html[17..] == rest;
  }

  lemma ReadClosing(rest: string)
    ensures Read("</span>" + rest, true) == Read(rest, false)
  {
    var html := "</span>" + rest;
    assert html[..7] == "</span>" && html[7..] == rest;
  }

  lemma ReadPiece(style: Option<Style>, text: string, rest: string)
    requires style.Some? ==> style.value in STYLES
    ensures Read(Piece(style, text) + rest, false) == Prepend(text, Read(rest, false))
  {
    hide Read, Escaped, Opening;
    if style.None? {
      ReadEscaped(text, rest, false);
    } else {
      var closing := "</span>" + rest;
      assert Piece(style, text) + rest == Opening(style.value) + (Escaped(text) + closing);
      ReadOpening(style.value, Escaped(text) + closing);
      ReadEscaped(text, closing, true);
      ReadClosing(rest);
    }
  }

  lemma TokenStyleKnown(code: string, i: nat)
    requires i < |code|
    ensures TokenAt(code, i).style.Some? ==> TokenAt(code, i).style.value in STYLES
  {
    assert STYLES[0] == "kw" && STYLES[1] == "ty" && STYLES[2] == "fn" && STYLES[3] == "st";
    assert STYLES[4] == "nm" && STYLES[5] == "cm" && STYLES[6] == "at";
  }

  lemma ReadNothing()
    ensures Read("", false) == Some("")
  {
  }

  /** Highlighting loses nothing: spans are balanced and never nest, and erasing the markup gives the source back. */
  lemma {:induction false} LosesNothing(code: string, i: nat)
    requires i <= |code|
    ensures Read(Highlighted(code, i), false) == Some(code[i..])
    decreases |code| - i
  {
    hide Read, Piece, TokenAt;
    if i == |code| {
      ReadNothing();
    } else {
      var t := TokenAt(code, i);
      TokenStyleKnown(code, i);
      ReadPiece(t.style, code[i..t.end], Highlighted(code, t.end));
      LosesNothing(code, t.end);
      assert code[i..t.end] + code[t.end..] == code[i..];
    }
  }
}

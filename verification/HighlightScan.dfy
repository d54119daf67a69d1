/**
 The highlighter's scanner over the bytes of a source. It slices the source at
 byte offsets, and a slice off a character boundary aborts it.
 */
module HighlightScan {
  import opened Highlight
  import opened HighlightTokens
  import opened Wrappers

  // ----- characters of several bytes -----

  /** A byte of a character longer than one byte. */
  predicate Multibyte(c: char) {
    c as int >= 0x80
  }

  predicate Continuation(c: char) {
    0x80 <= c as int < 0xC0
  }

  /** How many bytes a character has, by its first; none for a byte that starts no character. */
  function CharLength(lead: char): nat {
    var b := lead as int;
    if b < 0x80 then 1 else if b < 0xC0 then 0 else if b < 0xE0 then 2 else if b < 0xF0 then 3 else if b < 0xF8 then 4
    else 0
  }

  /** From `i` on the bytes have the shape of UTF-8. */
  predicate Utf8(code: string, i: nat)
    decreases |code| - i
  {
    i == |code| ||
    (&& i < |code| && 0 < CharLength(code[i]) <= |code| - i
     && (forall k :: i < k < i + CharLength(code[i]) ==> Continuation(code[k]))
     && Utf8(code, i + CharLength(code[i])))
  }

  predicate Boundary(code: string, i: nat) {
    i == 0 || i == |code| || (i < |code| && !Continuation(code[i]))
  }

  /** The range can be sliced out: any other aborts the scanner. */
  predicate Sliceable(code: string, a: nat, b: nat) {
    a <= b <= |code| && Boundary(code, a) && Boundary(code, b)
  }

  function Slice(code: string, a: nat, b: nat): string
    requires Sliceable(code, a, b)
  {
    code[a..b]
  }

  lemma {:induction false} Neighbours(code: string, i: nat, k: nat)
    requires Utf8(code, i) && i <= k < |code|
    ensures Continuation(code[k]) ==> i < k && Multibyte(code[k - 1])
    ensures Multibyte(code[k]) && !Continuation(code[k]) ==> k + 1 < |code| && Continuation(code[k + 1])
    decreases |code| - i
  {
    var next := i + CharLength(code[i]);
    if next <= k {
      Neighbours(code, next, k);
    } else if i < k {
      assert Continuation(code[k]) && (k - 1 == i || Continuation(code[k - 1]));
    }
  }

  lemma BoundaryBehind(code: string, k: nat)
    requires Utf8(code, 0) && 0 < k <= |code| && !Multibyte(code[k - 1])
    ensures Boundary(code, k)
  {
    if k < |code| {
      Neighbours(code, 0, k);
    }
  }

  /** One byte can be sliced out exactly when it is a character. */
  lemma OneByte(code: string, i: nat)
    requires Utf8(code, 0) && i < |code|
    ensures Sliceable(code, i, i + 1) <==> !Multibyte(code[i])
  {
    Neighbours(code, 0, i);
    if !Multibyte(code[i]) {
      BoundaryBehind(code, i + 1);
    }
  }

  // ----- where the scanner aborts -----

  ghost predicate HasMultibyte(code: string, i: nat, end: nat)
    requires end <= |code|
  {
    exists k :: i <= k < end && Multibyte(code[k])
  }

  /** A longer character stands at the token, or inside it when it is a string in triple quotes. */
  ghost predicate Aborts(code: string, i: nat)
    requires i < |code|
  {
    Multibyte(code[i]) || (At(code, i, "\"\"\"") && HasMultibyte(code, i, TokenAt(code, i).end))
  }

  ghost predicate AbortsSomewhere(code: string) {
    exists i :: 0 <= i < |code| && TokenStart(code, i) && Aborts(code, i)
  }

  /** No token that starts before `end` aborts the scanner. */
  ghost predicate CleanBefore(code: string, end: nat)
    requires end <= |code|
  {
    forall i :: 0 <= i < end && TokenStart(code, i) ==> !Aborts(code, i)
  }

  lemma CleanOn(code: string, i: nat)
    requires i < |code| && TokenStart(code, i) && CleanBefore(code, i) && !Aborts(code, i)
    ensures CleanBefore(code, TokenAt(code, i).end) && TokenStart(code, TokenAt(code, i).end)
  {
    hide Aborts, TokenAt, ComesTo;
    ComesOn(code, 0, i);
    forall j | 0 <= j < TokenAt(code, i).end && TokenStart(code, j) ensures !Aborts(code, j) {
      if i < j {
        StartsApart(code, 0, i, j);
      }
    }
  }

  lemma CleanEnds(code: string)
    requires CleanBefore(code, |code|)
    ensures !AbortsSomewhere(code)
  {
  }

  lemma StringEndIsBoundary(code: string, i: nat)
    requires Utf8(code, 0) && i < |code| && code[i] == '"'
    ensures Boundary(code, StringEnd(code, i))
  {
    hide StringScan;
    var end := StringEnd(code, i);
    StringEndsAt(code, i);
    if end < |code| {
      if At(code, i, "\"\"\"") {
        assert code[end - 3..end - 3 + 3] == "\"\"\"" && code[end - 1] == code[end - 3..end - 3 + 3][2];
        BoundaryBehind(code, end);
      } else if code[end] != '\n' {
        BoundaryBehind(code, end);
      }
    }
  }

  lemma NumberEndIsBoundary(code: string, i: nat)
    requires Utf8(code, 0) && i < |code| && Digit(code[i])
    ensures Boundary(code, NumberEnd(code, i))
  {
    var end := NumberEnd(code, i);
    if At(code, i, "0x") || At(code, i, "0b") {
      assert code[i..i + 2][1] == code[i + 1];
      assert end == i + 2 || NameChar(code[end - 1]);
    } else {
      assert InNumber(code, end - 1);
    }
    BoundaryBehind(code, end);
  }

  /** Every token that starts with a character of one byte can be sliced out. */
  lemma TokenSlices(code: string, i: nat)
    requires Utf8(code, 0) && i < |code| && !Multibyte(code[i])
    ensures Sliceable(code, i, TokenAt(code, i).end) && Sliceable(code, i, |code|)
  {
    hide IsKeyword, NextNonblank, StringEnd, NumberEnd, Utf8;
    var end := TokenAt(code, i).end;
    if code[i] == '"' {
      StringEndIsBoundary(code, i);
    } else if Digit(code[i]) {
      NumberEndIsBoundary(code, i);
    } else if code[i] != '#' {
      BoundaryBehind(code, end);
    }
  }

  // ----- the scanner -----

  method PushEscaped(out: string, text: string) returns (out': string)
    ensures out' == out + Escaped(text)
  {
    hide Entity;
    out' := out;
    for k := 0 to |text|
      invariant out' == out + Escaped(text[..k])
    {
      assert text[..k + 1][..k] == text[..k];
      out' := out' + Entity(text[k]);
    }
    assert text[..|text|] == text;
  }

  method Span(out: string, style: Style, text: string) returns (out': string)
    ensures out' == out + Piece(Some(style), text)
  {
    var tagged := out + "<span class=\"" + style + "\">";
    var filled := PushEscaped(tagged, text);
    out' := filled + "</span>";
  }

  method ScanName(code: string, start: nat) returns (i: nat)
    requires start <= |code|
    ensures i == NameEnd(code, start)
  {
    i := start;
    while i < |code| && NameChar(code[i])
      invariant start <= i <= |code| && NameEnd(code, start) == NameEnd(code, i)
    {
      i := i + 1;
    }
  }

  method EatComment(code: string, start: nat, out: string) returns (end: nat, out': string)
    requires Utf8(code, 0) && start < |code| && code[start] == '#'
    ensures Token(end, Some("cm")) == TokenAt(code, start) && out' == out + Piece(Some("cm"), code[start..end])
  {
    TokenSlices(code, start);
    CommentToken(code, start);
    LineEndInTail(code, start, start);
    hide TokenAt, Piece, Utf8, LineEnd, Sliceable;
    end := start + LineEnd(Slice(code, start, |code|), 0);
    out' := Span(out, "cm", Slice(code, start, end));
  }

  lemma CommentToken(code: string, start: nat)
    requires start < |code| && code[start] == '#'
    ensures TokenAt(code, start) == Token(LineEnd(code, start), Some("cm"))
  {
    hide LineEnd;
  }

  lemma {:induction false} LineEndInTail(code: string, start: nat, i: nat)
    requires start <= i <= |code|
    ensures start + LineEnd(code[start..|code|], i - start) == LineEnd(code, i)
    decreases |code| - i
  {
    if i < |code| && code[i] != '\n' {
      LineEndInTail(code, start, i + 1);
    }
  }

  /** The text and how far the scan has come. */
  datatype Eaten = Eaten(end: nat, out: string)

  /** So far no longer character has been met, save one whose next byte is about to be. */
  ghost predicate NoneMet(code: string, start: nat, i: nat) {
    forall k :: start <= k < i <= |code| && Multibyte(code[k]) ==> k == i - 1 && i < |code| && Continuation(code[i])
  }

  lemma NoneMetOn(code: string, start: nat, i: nat)
    requires Utf8(code, 0) && start <= i < |code| && NoneMet(code, start, i) && Boundary(code, i) && 0 < i
    ensures NoneMet(code, start, i + 1) && !HasMultibyte(code, start, i)
  {
    Neighbours(code, 0, i);
  }

  lemma TripleIsQuotes(code: string, i: nat)
    requires At(code, i, "\"\"\"")
    ensures code[i] == '"' && code[i + 1] == '"' && code[i + 2] == '"'
  {
    var triple := code[i..i + 3];
    assert triple[0] == code[i] && triple[1] == code[i + 1] && triple[2] == code[i + 2];
  }

  lemma TripleBegins(code: string, start: nat)
    requires At(code, start, "\"\"\"")
    ensures NoneMet(code, start, start + 3)
  {
    TripleIsQuotes(code, start);
  }

  /** A slice off a character boundary is inside a longer character of the literal. */
  lemma TripleAborts(code: string, start: nat, i: nat)
    requires At(code, start, "\"\"\"") && start + 3 <= i < |code| && !Sliceable(code, i, |code|)
    requires StringScan(code, i, true) == StringScan(code, start + 3, true)
    ensures HasMultibyte(code, start, StringEnd(code, start))
  {
    assert Multibyte(code[i]) && StringScan(code, i, true) > i;
  }

  lemma TripleCloses(code: string, start: nat, i: nat)
    requires At(code, start, "\"\"\"") && start + 3 <= i && At(code, i, "\"\"\"") && !HasMultibyte(code, start, i)
    requires StringScan(code, i, true) == StringScan(code, start + 3, true)
    ensures StringScan(code, start + 3, true) == i + 3 && !HasMultibyte(code, start, StringEnd(code, start))
  {
    TripleIsQuotes(code, i);
  }

  lemma TripleRunsOn(code: string, i: nat)
    requires i < |code| && !At(code, i, "\"\"\"")
    ensures StringScan(code, i, true) == StringScan(code, i + 1, true)
  {
  }

  lemma TripleStaysOpen(code: string, start: nat)
    requires At(code, start, "\"\"\"") && NoneMet(code, start, |code|)
    requires StringScan(code, |code|, true) == StringScan(code, start + 3, true)
    ensures StringScan(code, start + 3, true) == |code| && !HasMultibyte(code, start, StringEnd(code, start))
  {
  }

  /** The end of the scan for a closing triple, or none where a slice is off a character boundary. */
  method ScanTriple(code: string, start: nat) returns (end: Option<nat>)
    requires Utf8(code, 0) && start < |code| && At(code, start, "\"\"\"")
    ensures end.None? <==> HasMultibyte(code, start, StringEnd(code, start))
    ensures end.Some? ==> end.value == StringScan(code, start + 3, true)
  {
    hide Utf8, NoneMet, HasMultibyte, StringEnd, StringScan;
    var i := start + 3;
    TripleBegins(code, start);
    while i < |code|
      invariant start + 3 <= i <= |code| && StringScan(code, i, true) == StringScan(code, start + 3, true)
      invariant NoneMet(code, start, i)
    {
      if !Sliceable(code, i, |code|) {
        TripleAborts(code, start, i);
        return None;
      }
      NoneMetOn(code, start, i);
      if At(code, i, "\"\"\"") {
        TripleCloses(code, start, i);
        return Some(i + 3);
      }
      TripleRunsOn(code, i);
      i := i + 1;
    }
    TripleStaysOpen(code, start);
    return Some(i);
  }

  method ScanSingle(code: string, start: nat) returns (i: nat)
    requires start < |code|
    ensures i == StringScan(code, start + 1, false)
  {
    i := start + 1;
    while i < |code|
      invariant StringScan(code, i, false) == StringScan(code, start + 1, false)
      decreases |code| - i
    {
      if code[i] == '\\' {
        i := i + 2;
        continue;
      }
      if code[i] == '"' || code[i] == '\n' {
        i := i + if code[i] == '"' then 1 else 0;
        break;
      }
      i := i + 1;
    }
  }

  method EatString(code: string, start: nat, out: string) returns (r: Option<Eaten>)
    requires Utf8(code, 0) && start < |code| && code[start] == '"'
    ensures r.None? <==> Aborts(code, start)
    ensures r.Some? ==>
      && Token(r.value.end, Some("st")) == TokenAt(code, start)
      && r.value.out == out + Piece(Some("st"), code[start..r.value.end])
      && if At(code, start, "\"\"\"") then TripleEndsAt(code, start + 3, r.value.end)
         else SingleEndsAt(code, start + 1, r.value.end)
  {
    StringEndsAt(code, start);
    TokenSlices(code, start);
    hide TripleEndsAt, SingleEndsAt, Piece, HasMultibyte, Utf8, StringScan;
    var i: nat;
    if At(code, start, "\"\"\"") {
      var scanned := ScanTriple(code, start);
      if scanned.None? {
        return None;
      }
      i := scanned.value;
    } else {
      i := ScanSingle(code, start);
    }
    var end := if i < |code| then i else |code|;
    var out' := Span(out, "st", Slice(code, start, end));
    return Some(Eaten(end, out'));
  }

  method EatAnnotation(code: string, start: nat, out: string) returns (end: nat, out': string)
    requires Utf8(code, 0) && start < |code| && code[start] == '@'
    ensures end == TokenAt(code, start).end && out' == out + Piece(TokenAt(code, start).style, code[start..end])
  {
    TokenSlices(code, start);
    end := ScanName(code, start + 1);
    if end == start + 1 {
      assert code[start..end] == "@";
      out' := PushEscaped(out, "@");
      return;
    }
    out' := Span(out, "at", Slice(code, start, end));
  }

  method EatNumber(code: string, start: nat, out: string) returns (i: nat, out': string)
    requires Utf8(code, 0) && start < |code| && Digit(code[start])
    ensures Token(i, Some("nm")) == TokenAt(code, start) && out' == out + Piece(Some("nm"), code[start..i])
  {
    TokenSlices(code, start);
    hide Utf8, Piece;
    i := start;
    if At(code, start, "0x") || At(code, start, "0b") {
      i := ScanName(code, start + 2);
    } else {
      while i < |code| && (Digit(code[i]) || code[i] == '_' || code[i] == '.')
        invariant start <= i <= |code| && DecimalEnd(code, start) == DecimalEnd(code, i)
      {
        if code[i] == '.' && !(i + 1 < |code| && Digit(code[i + 1])) {
          break;
        }
        i := i + 1;
      }
    }
    out' := Span(out, "nm", Slice(code, start, i));
  }

  method EatIdent(code: string, start: nat, out: string) returns (end: nat, out': string)
    requires Utf8(code, 0) && start < |code| && (code[start] == '_' || Letter(code[start]))
    ensures end == TokenAt(code, start).end && out' == out + Piece(TokenAt(code, start).style, code[start..end])
  {
    TokenSlices(code, start);
    IdentToken(code, start);
    IdentSuffix(code, start);
    hide IsKeyword, Piece, NextNonblank, Utf8, Sliceable, TokenAt;
    end := ScanName(code, start);
    var hasSuffix := end < |code| && code[end] == '?';
    if hasSuffix {
      end := end + 1;
    }
    var word := Slice(code, start, end);
    if !hasSuffix && IsKeyword(word) {
      out' := Span(out, "kw", word);
    } else if Upper(code[start]) {
      out' := Span(out, "ty", word);
    } else if NextNonblank(code, end) == Some('(') {
      out' := Span(out, "fn", word);
    } else {
      PlainPiece(word);
      out' := PushEscaped(out, word);
    }
  }

  /** One token, or an abort. */
  method EatToken(code: string, i: nat, out: string) returns (r: Option<Eaten>)
    requires Utf8(code, 0) && i < |code|
    ensures r.None? <==> Aborts(code, i)
    ensures r.Some? ==>
      r.value.end == TokenAt(code, i).end && r.value.out == out + Piece(TokenAt(code, i).style, code[i..r.value.end])
  {
    hide Piece, Utf8, HasMultibyte, IdentStyle, NumberEnd, StringEnd;
    var c := code[i];
    var end, out';
    if c == '"' {
      r := EatString(code, i, out);
      return;
    }
    OnlyQuotesOpen(code, i);
    if c == '#' {
      end, out' := EatComment(code, i, out);
    } else if c == '@' {
      end, out' := EatAnnotation(code, i, out);
    } else if Digit(c) {
      end, out' := EatNumber(code, i, out);
    } else if c == '_' || Letter(c) {
      end, out' := EatIdent(code, i, out);
    } else {
      OneByte(code, i);
      if !Sliceable(code, i, i + 1) {
        return None;
      }
      out' := PushEscaped(out, Slice(code, i, i + 1));
      PlainPiece(code[i..i + 1]);
      end := i + 1;
    }
    return Some(Eaten(end, out'));
  }

  lemma OnlyQuotesOpen(code: string, i: nat)
    requires i < |code| && code[i] != '"'
    ensures Aborts(code, i) <==> Multibyte(code[i])
  {
    if At(code, i, "\"\"\"") {
      TripleIsQuotes(code, i);
    }
  }

  lemma PlainPiece(text: string)
    ensures Piece(None, text) == Escaped(text)
  {
  }

  /**
   Highlight a code block. The scanner aborts exactly when a character of several
   bytes stands where a token starts or inside a string in triple quotes;
   otherwise reading the result back gives the block.
   */
  method HighlightKoja(code: string) returns (out: Option<string>)
    requires Utf8(code, 0)
    ensures out.None? <==> AbortsSomewhere(code)
    ensures out.Some? ==> out.value == Highlighted(code, 0) && Read(out.value, false) == Some(code)
  {
    assert TokenStart(code, 0);
    hide TokenAt, Piece, Read, Aborts, Utf8, ComesTo;
    var html, i := "", 0;
    while i < |code|
      invariant i <= |code| && html + Highlighted(code, i) == Highlighted(code, 0)
      invariant TokenStart(code, i) && CleanBefore(code, i)
      decreases |code| - i
    {
      ghost var before, token := html, TokenAt(code, i);
      ghost var piece := Piece(token.style, code[i..token.end]);
      assert (before + piece) + Highlighted(code, token.end) == before + (piece + Highlighted(code, token.end));
      var eaten := EatToken(code, i, html);
      if eaten.None? {
        return None;
      }
      CleanOn(code, i);
      i, html := eaten.value.end, eaten.value.out;
    }
    CleanEnds(code);
    assert html + "" == html;
    LosesNothing(code, 0);
    assert code[0..] == code;
    return Some(html);
  }
}

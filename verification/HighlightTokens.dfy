/** What the highlighter's tokens are, in terms of the source around them. */
module HighlightTokens {
  import opened Highlight
  import opened Wrappers

  // ----- where tokens start -----

  /** Scanning from `from` comes to `i`. */
  predicate ComesTo(code: string, from: nat, i: nat)
    decreases |code| - from
  {
    from == i || (from < |code| && from < i && ComesTo(code, TokenAt(code, from).end, i))
  }

  predicate TokenStart(code: string, i: nat) {
    ComesTo(code, 0, i)
  }

  lemma {:induction false} ComesOn(code: string, from: nat, i: nat)
    requires ComesTo(code, from, i) && i < |code|
    ensures ComesTo(code, from, TokenAt(code, i).end)
    decreases |code| - from
  {
    if from < i {
      ComesOn(code, TokenAt(code, from).end, i);
    }
  }

  /** No token starts inside another. */
  lemma {:induction false} StartsApart(code: string, from: nat, i: nat, j: nat)
    requires ComesTo(code, from, i) && ComesTo(code, from, j) && i < j
    ensures i < |code| && TokenAt(code, i).end <= j
    decreases |code| - from
  {
    if from < i {
      StartsApart(code, TokenAt(code, from).end, i, j);
    }
  }

  lemma {:induction false} PreviousToken(code: string, from: nat, i: nat) returns (j: nat)
    requires ComesTo(code, from, i) && from < i
    ensures j < |code| && ComesTo(code, from, j) && TokenAt(code, j).end == i
    decreases |code| - from
  {
    var next := TokenAt(code, from).end;
    if next == i {
      j := from;
    } else {
      j := PreviousToken(code, next, i);
    }
  }

  /** The token before `i` is a number. */
  ghost predicate AfterNumber(code: string, i: nat) {
    exists j :: 0 <= j < |code| && TokenStart(code, j) && TokenAt(code, j) == Token(i, Some("nm"))
  }

  /** A name character right behind a token has another before it exactly when that token is a number. */
  lemma LeftEdge(code: string, j: nat)
    requires j < |code| && TokenAt(code, j).end < |code| && NameChar(code[TokenAt(code, j).end])
    ensures NameChar(code[TokenAt(code, j).end - 1]) <==> TokenAt(code, j).style == Some("nm")
  {
    hide IsKeyword, NextNonblank, StringScan;
    var end := TokenAt(code, j).end;
    if code[j] == '"' {
      StringIsClosed(code, j);
    } else if Digit(code[j]) {
      NumberEdge(code, j);
    }
  }

  lemma NumberEdge(code: string, j: nat)
    requires j < |code| && Digit(code[j]) && NumberEnd(code, j) < |code| && NameChar(code[NumberEnd(code, j)])
    ensures NameChar(code[NumberEnd(code, j) - 1])
  {
    assert InNumber(code, DecimalEnd(code, j) - 1);
  }

  lemma StringIsClosed(code: string, j: nat)
    requires j < |code| && code[j] == '"' && StringEnd(code, j) < |code| && NameChar(code[StringEnd(code, j)])
    ensures code[StringEnd(code, j) - 1] == '"'
  {
    hide StringScan;
    StringEndsAt(code, j);
    var end := StringEnd(code, j);
    if At(code, j, "\"\"\"") {
      assert code[end - 3..end - 3 + 3] == "\"\"\"" && code[end - 1] == code[end - 3..end - 3 + 3][2];
    }
  }

  /** Names are whole on the left, save behind a number, where one starts in the middle of a run. */
  lemma NameStartsWhole(code: string, i: nat)
    requires TokenStart(code, i) && 0 < i < |code| && NameChar(code[i])
    ensures NameChar(code[i - 1]) <==> AfterNumber(code, i)
  {
    hide TokenAt;
    var j := PreviousToken(code, 0, i);
    LeftEdge(code, j);
    if AfterNumber(code, i) {
      var k :| 0 <= k < |code| && TokenStart(code, k) && TokenAt(code, k) == Token(i, Some("nm"));
      LeftEdge(code, k);
    }
  }

  lemma KeywordBehindNumber()
    ensures TokenAt("1end", 0) == Token(1, Some("nm")) && TokenAt("1end", 1) == Token(4, Some("kw"))
  {
    var code := "1end";
    assert NameEnd(code, 4) == 4 && NameEnd(code, 3) == 4 && NameEnd(code, 2) == 4 && NameEnd(code, 1) == 4;
    assert !InNumber(code, 1) && DecimalEnd(code, 1) == 1;
    assert code[1..4] == "end" && KEYWORDS[9] == "end";
  }

  // ----- what each style means -----

  /** A number: a prefixed run of name characters, or digits, underscores and inner points, as long as it can be. */
  ghost predicate NumberEndsAt(code: string, i: nat, end: nat)
    requires i < end <= |code|
  {
    && Digit(code[i])
    && if At(code, i, "0x") || At(code, i, "0b") then
         && i + 2 <= end && (forall k :: i + 2 <= k < end ==> NameChar(code[k]))
         && (end == |code| || !NameChar(code[end]))
       else
         (forall k :: i <= k < end ==> InNumber(code, k)) && (end == |code| || !InNumber(code, end))
  }

  /** The run is a whole name: bounded on the right, and on the left unless a number stands before it. */
  ghost predicate WholeName(code: string, i: nat, end: nat)
    requires i < end <= |code|
  {
    && (forall k :: i <= k < end - 1 ==> NameChar(code[k]))
    && (NameChar(code[end - 1]) || code[end - 1] == '?')
    && (end == |code| || code[end - 1] == '?' || (!NameChar(code[end]) && code[end] != '?'))
    && (i == 0 || !NameChar(code[i - 1]) || AfterNumber(code, i))
  }

  lemma IdentIsWhole(code: string, i: nat)
    requires TokenStart(code, i) && i < |code| && (code[i] == '_' || Letter(code[i]))
    ensures WholeName(code, i, IdentEnd(code, i))
  {
    if i > 0 {
      NameStartsWhole(code, i);
    }
  }

  /** The first character from `i` on that is not blank is an opening parenthesis. */
  ghost predicate ParenthesisNext(code: string, i: nat) {
    exists k :: i <= k < |code| && code[k] == '(' && forall j :: i <= j < k ==> Blank(code[j])
  }

  lemma {:induction false} NextIsFirst(code: string, i: nat)
    requires i <= |code|
    ensures NextNonblank(code, i) == Some('(') <==> ParenthesisNext(code, i)
    decreases |code| - i
  {
    if i < |code| && Blank(code[i]) {
      NextIsFirst(code, i + 1);
    }
  }

  /** What a run from `i` up to `end` is when it carries the style. */
  ghost predicate Means(code: string, i: nat, end: nat, style: Style)
    requires i < end <= |code|
  {
    if style == "cm" then
      && code[i] == '#' && (forall k :: i <= k < end ==> code[k] != '\n')
      && (end == |code| || code[end] == '\n')
    else if style == "st" then
      && code[i] == '"'
      && if At(code, i, "\"\"\"") then TripleEndsAt(code, i + 3, end) else SingleEndsAt(code, i + 1, end)
    else if style == "at" then
      && code[i] == '@' && i + 1 < end && (forall k :: i < k < end ==> NameChar(code[k]))
      && (end == |code| || !NameChar(code[end]))
    else if style == "nm" then NumberEndsAt(code, i, end)
    else if style == "kw" then IsKeyword(code[i..end]) && WholeName(code, i, end)
    else if style == "ty" then Upper(code[i]) && WholeName(code, i, end)
    else
      && style == "fn" && !Upper(code[i]) && WholeName(code, i, end)
      && ParenthesisNext(code, end)
  }

  lemma NumberMeans(code: string, i: nat)
    requires i < |code| && Digit(code[i])
    ensures NumberEndsAt(code, i, NumberEnd(code, i))
  {
  }

  lemma IdentMeans(code: string, i: nat)
    requires TokenStart(code, i) && i < |code| && (code[i] == '_' || Letter(code[i]))
    ensures var end := IdentEnd(code, i);
            IdentStyle(code, i, end).Some? ==> Means(code, i, end, IdentStyle(code, i, end).value)
  {
    hide IsKeyword, NextNonblank, WholeName, ComesTo, ParenthesisNext;
    IdentIsWhole(code, i);
    NextIsFirst(code, IdentEnd(code, i));
  }

  /** At every token of a source its style says what it should. */
  lemma StylesMean(code: string, i: nat)
    requires TokenStart(code, i) && i < |code|
    ensures TokenAt(code, i).style.Some? ==> Means(code, i, TokenAt(code, i).end, TokenAt(code, i).style.value)
  {
    hide IsKeyword, NextNonblank, WholeName, NumberEndsAt, SingleEndsAt, TripleEndsAt, ComesTo, StringEnd, NumberEnd;
    if code[i] == '"' {
      StringEndsAt(code, i);
    } else if Digit(code[i]) {
      NumberMeans(code, i);
    } else if code[i] == '_' || Letter(code[i]) {
      hide Means, IdentStyle;
      IdentMeans(code, i);
    }
  }

  // ----- which style a token gets -----

  predicate NameStart(c: char) {
    c == '_' || Letter(c)
  }

  /** The name characters from `i` on run up to `end`. */
  ghost predicate NameRuns(code: string, i: nat, end: nat) {
    && i < end <= |code| && (forall k :: i <= k < end ==> NameChar(code[k]))
    && (end == |code| || !NameChar(code[end]))
  }

  lemma NameRunsTo(code: string, i: nat, end: nat)
    requires i < |code| && NameRuns(code, i, end)
    ensures end == NameEnd(code, i)
  {
  }

  lemma IdentToken(code: string, start: nat)
    requires start < |code| && (code[start] == '_' || Letter(code[start]))
    ensures TokenAt(code, start) == Token(IdentEnd(code, start), IdentStyle(code, start, IdentEnd(code, start)))
  {
    hide IdentEnd, IdentStyle;
  }

  /** A name ends in a question mark exactly when one stands behind its name characters. */
  lemma IdentSuffix(code: string, start: nat)
    requires start < |code| && (code[start] == '_' || Letter(code[start]))
    ensures var name, end := NameEnd(code, start), IdentEnd(code, start);
            code[start..end][|code[start..end]| - 1] == '?' <==> name < |code| && code[name] == '?'
  {
    var end := IdentEnd(code, start);
    assert code[start..end][end - start - 1] == code[end - 1];
  }

  /**
   The style of a name that runs from `i` to `end`, a question mark behind it
   included: a keyword if it is one and has none, else a type if it starts upper
   case, else a call if a parenthesis comes next, else nothing.
   */
  lemma NameStyle(code: string, i: nat, end: nat)
    requires i < |code| && NameStart(code[i]) && NameRuns(code, i, end)
    ensures var asks := end < |code| && code[end] == '?';
            var last := if asks then end + 1 else end;
            TokenAt(code, i) ==
            if !asks && code[i..end] in KEYWORDS then Token(end, Some("kw"))
            else if Upper(code[i]) then Token(last, Some("ty"))
            else if ParenthesisNext(code, last) then Token(last, Some("fn"))
            else Token(last, None)
  {
    hide IsKeyword, NextNonblank, ParenthesisNext, NameRuns, TokenAt, NameChar;
    NameRunsTo(code, i, end);
    IdentToken(code, i);
    IdentSuffix(code, i);
    var last := IdentEnd(code, i);
    NextIsFirst(code, last);
    KeywordIs(code[i..last]);
  }

  lemma KeywordIs(word: string)
    ensures IsKeyword(word) <==> word in KEYWORDS
  {
  }

  /** Every other token has its style by its first characters. */
  lemma OtherStyle(code: string, i: nat)
    requires i < |code| && !NameStart(code[i])
    ensures var t := TokenAt(code, i);
            && (code[i] == '#' ==> t.style == Some("cm"))
            && (code[i] == '"' ==> t.style == Some("st"))
            && (Digit(code[i]) ==> t.style == Some("nm"))
            && (code[i] == '@' && i + 1 < |code| && NameChar(code[i + 1]) ==> t.style == Some("at"))
            && (code[i] == '@' && !(i + 1 < |code| && NameChar(code[i + 1])) ==> t == Token(i + 1, None))
            && (code[i] !in "#\"@" && !Digit(code[i]) ==> t == Token(i + 1, None))
  {
    hide StringEnd, NumberEnd, LineEnd;
  }

  /** A token has no style exactly when nothing gives it one. */
  lemma UnstyledIff(code: string, i: nat, end: nat)
    requires i < |code| && (NameStart(code[i]) ==> NameRuns(code, i, end))
    ensures TokenAt(code, i).style == None <==>
            if NameStart(code[i]) then
              var asks := end < |code| && code[end] == '?';
              && (asks || code[i..end] !in KEYWORDS) && !Upper(code[i])
              && !ParenthesisNext(code, if asks then end + 1 else end)
            else
              && code[i] != '#' && code[i] != '"' && !Digit(code[i])
              && !(code[i] == '@' && i + 1 < |code| && NameChar(code[i + 1]))
  {
    hide TokenAt, ParenthesisNext, NameRuns;
    if NameStart(code[i]) {
      NameStyle(code, i, end);
    } else {
      OtherStyle(code, i);
    }
  }

  /** A name never takes a `!` along. */
  lemma BangIsNoSuffix(code: string, i: nat)
    requires i < |code| && (code[i] == '_' || Letter(code[i]))
    ensures '!' !in code[i..TokenAt(code, i).end]
  {
    hide IsKeyword, NextNonblank;
  }
}

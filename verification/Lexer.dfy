/** The shared Rust token walk of `lex_full`: comments, strings, raw strings, chars and lifetimes. */
module Lexer {

  datatype Kind = LineComment | BlockComment | RawString | PlainString | CharLiteral | Code

  /** One step of the walk: it covers [start, stop), and [bodyStart, bodyEnd) is its interior
      (the whole token for comments, nothing for code). */
  datatype Token = Token(kind: Kind, start: nat, stop: nat, bodyStart: nat, bodyEnd: nat)

  datatype Span = Span(start: nat, stop: nat, isRaw: bool)

  function Min(x: nat, y: nat): nat
  {
    if x < y then x else y
  }

  predicate CharAt(text: string, i: nat, c: char)
  {
    i < |text| && text[i] == c
  }

  // ----- the inner scans -----

  /** `text.find(c, i)`, with the length for "not found". */
  function FindChar(text: string, c: char, i: nat): (r: nat)
    requires i <= |text|
    ensures i <= r <= |text|
    decreases |text| - i
  {
    if i == |text| || text[i] == c then i else FindChar(text, c, i + 1)
  }

  /** Past the nested block comment that is `depth` levels open at `j`. */
  function BlockEnd(text: string, j: nat, depth: nat): (r: nat)
    requires j <= |text|
    ensures j <= r <= |text|
    decreases |text| - j
  {
    if j == |text| || depth == 0 then j
    else if CharAt(text, j, '/') && CharAt(text, j + 1, '*') then BlockEnd(text, j + 2, depth + 1)
    else if CharAt(text, j, '*') && CharAt(text, j + 1, '/') then BlockEnd(text, j + 2, depth - 1)
    else BlockEnd(text, j + 1, depth)
  }

  /** Past the run of `#` at `j`. */
  function HashEnd(text: string, j: nat): (r: nat)
    requires j <= |text|
    ensures j <= r <= |text|
    decreases |text| - j
  {
    if CharAt(text, j, '#') then HashEnd(text, j + 1) else j
  }

  function RawR(text: string, i: nat): nat
  {
    if CharAt(text, i, 'b') then i + 1 else i
  }

  /** Length of an r/br raw-string opener at `i`, or 0. */
  function RawPrefixLen(text: string, i: nat): (len: nat)
    requires i < |text|
    ensures len > 0 ==> 2 <= len && i + len <= |text|
  {
    var j := RawR(text, i);
    if !CharAt(text, j, 'r') then 0
    else
      var k := HashEnd(text, j + 1);
      if CharAt(text, k, '"') then k - i + 1 else 0
  }

  /** The raw string closer: a quote and `hashes` hash marks. */
  predicate ClosesRaw(text: string, k: nat, hashes: nat)
  {
    && CharAt(text, k, '"') && k + 1 + hashes <= |text|
    && forall h :: k < h <= k + hashes ==> text[h] == '#'
  }

  /** First raw closer at or after `i`, or the length if there is none. */
  function FindClose(text: string, hashes: nat, i: nat): (r: nat)
    requires i <= |text|
    ensures i <= r <= |text|
    ensures r < |text| ==> ClosesRaw(text, r, hashes)
    decreases |text| - i
  {
    if i == |text| || ClosesRaw(text, i, hashes) then i else FindClose(text, hashes, i + 1)
  }

  /** The closing quote of a string body, stepping over escape pairs; may overshoot by one. */
  function StrEnd(text: string, j: nat): (r: nat)
    requires j <= |text| + 1
    ensures j <= r <= |text| + 1
    decreases |text| + 1 - j
  {
    if j >= |text| then j
    else if text[j] == '\\' then StrEnd(text, j + 2)
    else if text[j] == '"' then j
    else StrEnd(text, j + 1)
  }

  /** The closing quote of an escaped char literal; may overshoot by one. */
  function CharEnd(text: string, j: nat): (r: nat)
    requires j <= |text| + 1
    ensures j <= r <= |text| + 1
    decreases |text| + 1 - j
  {
    if j >= |text| || text[j] == '\'' then j
    else if text[j] == '\\' then CharEnd(text, j + 2)
    else CharEnd(text, j + 1)
  }

  // ----- one step -----

  predicate OpensString(text: string, i: nat)
  {
    CharAt(text, i, '"') || (CharAt(text, i, 'b') && CharAt(text, i + 1, '"'))
  }

  predicate OpensQuote(text: string, i: nat)
  {
    CharAt(text, i, '\'') || (CharAt(text, i, 'b') && CharAt(text, i + 1, '\''))
  }

  /** Index of the quote when `OpensQuote` or `OpensString` holds. */
  function QuoteAt(text: string, i: nat): nat
  {
    if CharAt(text, i, 'b') then i + 1 else i
  }

  function CodeStep(i: nat): Token
  {
    Token(Code, i, i + 1, i, i)
  }

  function LineStep(text: string, i: nat): Token
    requires i < |text|
  {
    var j := FindChar(text, '\n', i);
    Token(LineComment, i, j, i, j)
  }

  function BlockStep(text: string, i: nat): Token
    requires i + 2 <= |text|
  {
    var j := BlockEnd(text, i + 2, 1);
    Token(BlockComment, i, j, i, j)
  }

  function RawHashes(text: string, i: nat): nat
    requires i < |text| && RawPrefixLen(text, i) > 0
  {
    RawPrefixLen(text, i) - (if text[i] == 'b' then 2 else 1) - 1
  }

  function RawStep(text: string, i: nat): Token
    requires i < |text| && RawPrefixLen(text, i) > 0
  {
    var body := i + RawPrefixLen(text, i);
    var hashes := RawHashes(text, i);
    var k := FindClose(text, hashes, body);
    Token(RawString, i, if k == |text| then k else k + 1 + hashes, body, k)
  }

  function StringStep(text: string, i: nat): Token
    requires OpensString(text, i)
  {
    var body := QuoteAt(text, i) + 1;
    var j := StrEnd(text, body);
    Token(PlainString, i, Min(j + 1, |text|), body, Min(j, |text|))
  }

  /** A char literal, or a lone code step for a lifetime. */
  function QuoteStep(text: string, i: nat): Token
    requires OpensQuote(text, i)
  {
    var j := QuoteAt(text, i) + 1;
    if CharAt(text, j, '\\') then
      var close := CharEnd(text, j + 2);
      Token(CharLiteral, i, Min(close + 1, |text|), j, Min(close, |text|))
    else if CharAt(text, j + 1, '\'') then
      Token(CharLiteral, i, j + 2, j, j + 1)
    else
      CodeStep(i)
  }

  /** The token the walk takes at `i`. */
  function Step(text: string, i: nat): Token
    requires i < |text|
  {
    if text[i] == '/' && CharAt(text, i + 1, '/') then LineStep(text, i)
    else if text[i] == '/' && CharAt(text, i + 1, '*') then BlockStep(text, i)
    else if RawPrefixLen(text, i) > 0 then RawStep(text, i)
    else if OpensString(text, i) then StringStep(text, i)
    else if OpensQuote(text, i) then QuoteStep(text, i)
    else CodeStep(i)
  }

  lemma StepShape(text: string, i: nat)
    requires i < |text|
    ensures var t := Step(text, i);
            t.start == i < t.stop <= |text| && i <= t.bodyStart <= t.bodyEnd <= t.stop
  {
    if text[i] == '/' && CharAt(text, i + 1, '/') {
      assert FindChar(text, '\n', i) == FindChar(text, '\n', i + 1);
    }
  }

  /** The whole walk from `i`. */
  function Walk(text: string, i: nat): seq<Token>
    requires i <= |text|
    decreases |text| - i
  {
    if i == |text| then []
    else
      StepShape(text, i);
      var t := Step(text, i);
      [t] + Walk(text, t.stop)
  }

  // ----- what the walk yields -----

  predicate IsString(t: Token)
  {
    t.kind == RawString || t.kind == PlainString
  }

  predicate IsComment(t: Token)
  {
    t.kind == LineComment || t.kind == BlockComment
  }

  /** Tokens tile [i, n): each starts where the one before stopped. */
  ghost predicate Tiles(toks: seq<Token>, i: nat, n: nat)
  {
    && (if toks == [] then i == n else toks[0].start == i && toks[|toks| - 1].stop == n)
    && (forall k :: 0 <= k < |toks| ==> toks[k].start < toks[k].stop)
    && (forall k :: 0 <= k < |toks| ==> toks[k].start <= toks[k].bodyStart <= toks[k].bodyEnd <= toks[k].stop)
    && (forall k :: 0 <= k < |toks| - 1 ==> toks[k].stop == toks[k + 1].start)
  }

  /** On every text the walk ends, and its tokens cover the text without gap or overlap. */
  lemma {:induction false} WalkTiles(text: string, i: nat)
    requires i <= |text|
    ensures Tiles(Walk(text, i), i, |text|)
    decreases |text| - i
  {
    if i < |text| {
      StepShape(text, i);
      var t := Step(text, i);
      WalkTiles(text, t.stop);
      var rest := Walk(text, t.stop);
      assert Walk(text, i) == [t] + rest;
    }
  }

  function StringSpans(toks: seq<Token>): seq<Span>
  {
    if toks == [] then []
    else
      var t := toks[|toks| - 1];
      StringSpans(toks[..|toks| - 1]) + if IsString(t) then [Span(t.bodyStart, t.bodyEnd, t.kind == RawString)] else []
  }

  function CommentSpans(toks: seq<Token>): seq<(nat, nat)>
  {
    if toks == [] then []
    else
      var t := toks[|toks| - 1];
      CommentSpans(toks[..|toks| - 1]) + if IsComment(t) then [(t.start, t.stop)] else []
  }

  /** The spans found up to `n`: each kind in text order without overlap, and no string meets a comment. */
  ghost predicate SpansApart(strings: seq<Span>, comments: seq<(nat, nat)>, n: nat)
  {
    && (forall a :: 0 <= a < |strings| ==> strings[a].start <= strings[a].stop <= n)
    && (forall a :: 0 <= a < |comments| ==> comments[a].0 < comments[a].1 <= n)
    && (forall a, b :: 0 <= a < b < |strings| ==> strings[a].stop <= strings[b].start)
    && (forall a, b :: 0 <= a < b < |comments| ==> comments[a].1 <= comments[b].0)
    && (forall a, b :: 0 <= a < |strings| && 0 <= b < |comments| ==>
          strings[a].stop <= comments[b].0 || comments[b].1 <= strings[a].start)
  }

  lemma TilesInit(toks: seq<Token>, i: nat, n: nat)
    requires Tiles(toks, i, n) && toks != []
    ensures Tiles(toks[..|toks| - 1], i, toks[|toks| - 1].start)
  {
  }

  lemma {:induction false} TokenSpansApart(toks: seq<Token>, i: nat, n: nat)
    requires Tiles(toks, i, n)
    ensures SpansApart(StringSpans(toks), CommentSpans(toks), n)
    decreases |toks|
  {
    if toks != [] {
      TilesInit(toks, i, n);
      TokenSpansApart(toks[..|toks| - 1], i, toks[|toks| - 1].start);
    }
  }

  /** On every text, string spans and comment spans come out in order and never overlap. */
  lemma LexedSpansApart(text: string)
    ensures SpansApart(StringSpans(Tokens(text)), CommentSpans(Tokens(text)), |text|)
  {
    WalkTiles(text, 0);
    TokenSpansApart(Tokens(text), 0, |text|);
  }

  /** Does the walk blank the interior of `t`? */
  predicate Blanks(t: Token, strings: bool)
  {
    IsComment(t) || t.kind == CharLiteral || (strings && IsString(t))
  }

  /** Blanking keeps newlines, so line numbers survive. */
  function BlankRange(s: string, a: nat, b: nat): (r: string)
    ensures |r| == |s|
  {
    seq(|s|, k requires 0 <= k < |s| => if a <= k < b && s[k] != '\n' then ' ' else s[k])
  }

  function BlankTokens(text: string, toks: seq<Token>, strings: bool): (r: string)
    ensures |r| == |text|
  {
    if toks == [] then text
    else
      var t := toks[|toks| - 1];
      var before := BlankTokens(text, toks[..|toks| - 1], strings);
      if Blanks(t, strings) then BlankRange(before, t.bodyStart, t.bodyEnd) else before
  }

  function Tokens(text: string): seq<Token>
  {
    Walk(text, 0)
  }

  /** The lexed text. */
  function Lexed(text: string, strings: bool): (r: string)
    ensures |r| == |text|
  {
    BlankTokens(text, Tokens(text), strings)
  }

  /** Some token blanks position k. */
  ghost predicate BlankedAt(toks: seq<Token>, strings: bool, k: nat)
  {
    exists i :: 0 <= i < |toks| && Blanks(toks[i], strings) && toks[i].bodyStart <= k < toks[i].bodyEnd
  }

  lemma BlankedAtSnoc(toks: seq<Token>, strings: bool, k: nat)
    requires toks != []
    ensures var t := toks[|toks| - 1];
            BlankedAt(toks, strings, k) <==>
            BlankedAt(toks[..|toks| - 1], strings, k) || (Blanks(t, strings) && t.bodyStart <= k < t.bodyEnd)
  {
    var init := toks[..|toks| - 1];
    if BlankedAt(init, strings, k) {
      var i :| 0 <= i < |init| && Blanks(init[i], strings) && init[i].bodyStart <= k < init[i].bodyEnd;
      assert toks[i] == init[i];
    }
    if BlankedAt(toks, strings, k) {
      var i :| 0 <= i < |toks| && Blanks(toks[i], strings) && toks[i].bodyStart <= k < toks[i].bodyEnd;
      if i < |init| { assert init[i] == toks[i]; }
    }
  }

  /** Only interiors of comments, char literals and (if asked) strings are blanked; every other
      character and every newline stays where it was. */
  lemma {:induction false} BlankTokensAt(text: string, toks: seq<Token>, strings: bool, k: nat)
    requires k < |text|
    ensures BlankTokens(text, toks, strings)[k]
         == if text[k] != '\n' && BlankedAt(toks, strings, k) then ' ' else text[k]
  {
    if toks != [] {
      BlankTokensAt(text, toks[..|toks| - 1], strings, k);
      BlankedAtSnoc(toks, strings, k);
    }
  }

  lemma LexedAt(text: string, strings: bool, k: nat)
    requires k < |text|
    ensures Lexed(text, strings)[k] == if text[k] != '\n' && BlankedAt(Tokens(text), strings, k) then ' ' else text[k]
    ensures Lexed(text, strings)[k] == '\n' <==> text[k] == '\n'
  {
    BlankTokensAt(text, Tokens(text), strings, k);
  }
}

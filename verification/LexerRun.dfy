/** `lex_full` as the loop it is: an index walk that blanks a character buffer in place. */
module LexerRun {
  import opened Lexer

  method RawPrefixLength(text: string, i: nat) returns (len: nat)
    requires i < |text|
    ensures len == RawPrefixLen(text, i)
  {
    var j := i;
    if text[j] == 'b' {
      j := j + 1;
    }
    if j >= |text| || text[j] != 'r' {
      return 0;
    }
    j := j + 1;
    ghost var from := j;
    while j < |text| && text[j] == '#'
      invariant from <= j <= |text| && HashEnd(text, j) == HashEnd(text, from)
    {
      j := j + 1;
    }
    if j < |text| && text[j] == '"' {
      return j - i + 1;
    }
    return 0;
  }

  method ScanBlock(text: string, i: nat) returns (j: nat)
    requires i + 2 <= |text|
    ensures j == BlockEnd(text, i + 2, 1)
  {
    var depth := 1;
    j := i + 2;
    while j < |text| && depth != 0
      invariant j <= |text| && depth >= 0 && BlockEnd(text, j, depth) == BlockEnd(text, i + 2, 1)
      decreases |text| - j
    {
      if CharAt(text, j, '/') && CharAt(text, j + 1, '*') {
        depth, j := depth + 1, j + 2;
      } else if CharAt(text, j, '*') && CharAt(text, j + 1, '/') {
        depth, j := depth - 1, j + 2;
      } else {
        j := j + 1;
      }
    }
  }

  method ScanString(text: string, start: nat) returns (j: nat)
    requires start <= |text|
    ensures j == StrEnd(text, start)
  {
    j := start;
    while j < |text|
      invariant j <= |text| + 1 && StrEnd(text, j) == StrEnd(text, start)
    {
      if text[j] == '\\' {
        j := j + 2;
      } else if text[j] == '"' {
        return;
      } else {
        j := j + 1;
      }
    }
  }

  method ScanChar(text: string, start: nat) returns (j: nat)
    requires start <= |text| + 1
    ensures j == CharEnd(text, start)
  {
    j := start;
    while j < |text| && text[j] != '\''
      invariant j <= |text| + 1 && CharEnd(text, j) == CharEnd(text, start)
    {
      if text[j] == '\\' {
        j := j + 2;
      } else {
        j := j + 1;
      }
    }
  }

  /** Overwrites [a, min(b, n)) with spaces, keeping newlines. */
  method Blank(out: array<char>, a: nat, b: nat)
    modifies out
    ensures out[..] == BlankRange(old(out[..]), a, b)
  {
    var k := a;
    while k < b && k < out.Length
      invariant a <= k && (k <= b || k == a)
      invariant forall x :: 0 <= x < out.Length ==>
        out[x] == if a <= x < k && old(out[x]) != '\n' then ' ' else old(out[x])
    {
      if out[k] != '\n' {
        out[k] := ' ';
      }
      k := k + 1;
    }
  }

  /** The token at `i`, found with the scanning loops. */
  method TakeStep(text: string, i: nat) returns (t: Token)
    requires i < |text|
    ensures t == Step(text, i)
  {
    var plen := RawPrefixLength(text, i);
    if text[i] == '/' && CharAt(text, i + 1, '/') {
      t := LineStep(text, i);
    } else if text[i] == '/' && CharAt(text, i + 1, '*') {
      var j := ScanBlock(text, i);
      t := Token(BlockComment, i, j, i, j);
    } else if plen != 0 {
      t := RawStep(text, i);
    } else if OpensString(text, i) {
      var start := QuoteAt(text, i) + 1;
      var j := ScanString(text, start);
      t := Token(PlainString, i, Min(j + 1, |text|), start, Min(j, |text|));
    } else if OpensQuote(text, i) {
      var j := QuoteAt(text, i) + 1;
      if CharAt(text, j, '\\') {
        var close := ScanChar(text, j + 2);
        t := Token(CharLiteral, i, Min(close + 1, |text|), j, Min(close, |text|));
      } else if CharAt(text, j + 1, '\'') {
        t := Token(CharLiteral, i, j + 2, j, j + 1);
      } else {
        t := CodeStep(i);
      }
    } else {
      t := CodeStep(i);
    }
  }

  method BlankToken(out: array<char>, t: Token, strings: bool)
    modifies out
    ensures out[..] == if Blanks(t, strings) then BlankRange(old(out[..]), t.bodyStart, t.bodyEnd) else old(out[..])
  {
    if Blanks(t, strings) {
      Blank(out, t.bodyStart, t.bodyEnd);
    }
  }

  function AddString(spans: seq<Span>, t: Token): seq<Span>
  {
    spans + if IsString(t) then [Span(t.bodyStart, t.bodyEnd, t.kind == RawString)] else []
  }

  function AddComment(comments: seq<(nat, nat)>, t: Token): seq<(nat, nat)>
  {
    comments + if IsComment(t) then [(t.start, t.stop)] else []
  }

  lemma Emitted(text: string, done: seq<Token>, t: Token, strings: bool)
    ensures StringSpans(done + [t]) == AddString(StringSpans(done), t)
    ensures CommentSpans(done + [t]) == AddComment(CommentSpans(done), t)
    ensures BlankTokens(text, done + [t], strings)
         == if Blanks(t, strings) then BlankRange(BlankTokens(text, done, strings), t.bodyStart, t.bodyEnd)
            else BlankTokens(text, done, strings)
  {
    assert (done + [t])[..|done|] == done;
  }

  method NextToken(text: string, i: nat) returns (t: Token)
    requires i < |text|
    ensures i < t.stop <= |text|
    ensures Walk(text, i) == [t] + Walk(text, t.stop)
  {
    t := TakeStep(text, i);
    StepShape(text, i);
  }

  /** The walk has taken `done` and stands at `i`. */
  ghost predicate Reached(text: string, done: seq<Token>, i: nat)
  {
    i <= |text| && done + Walk(text, i) == Tokens(text)
  }

  lemma ReachedStep(text: string, done: seq<Token>, i: nat, t: Token)
    requires Reached(text, done, i) && i < t.stop <= |text| && Walk(text, i) == [t] + Walk(text, t.stop)
    ensures Reached(text, done + [t], t.stop)
  {
    assert done + ([t] + Walk(text, t.stop)) == (done + [t]) + Walk(text, t.stop);
  }

  lemma ReachedEnd(text: string, done: seq<Token>)
    requires Reached(text, done, |text|)
    ensures done == Tokens(text)
  {
    assert Walk(text, |text|) == [];
  }

  /** The walk itself.  The flag decides only what is blanked, never the spans. */
  method LexInto(text: string, strings: bool, buffer: array<char>) returns (spans: seq<Span>, comments: seq<(nat, nat)>)
    requires buffer[..] == text
    modifies buffer
    ensures buffer[..] == Lexed(text, strings)
    ensures spans == StringSpans(Tokens(text))
    ensures comments == CommentSpans(Tokens(text))
  {
    spans, comments := [], [];
    ghost var done: seq<Token> := [];
    var i := 0;
    while i < |text|
      invariant Reached(text, done, i)
      invariant buffer[..] == BlankTokens(text, done, strings)
      invariant spans == StringSpans(done) && comments == CommentSpans(done)
      decreases |text| - i
    {
      var t := NextToken(text, i);
      BlankToken(buffer, t, strings);
      spans, comments := AddString(spans, t), AddComment(comments, t);
      Emitted(text, done, t, strings);
      ReachedStep(text, done, i, t);
      done := done + [t];
      i := t.stop;
    }
    ReachedEnd(text, done);
  }

  method LexFull(text: string, strings: bool) returns (out: string, spans: seq<Span>, comments: seq<(nat, nat)>)
    ensures out == Lexed(text, strings)
    ensures spans == StringSpans(Tokens(text))
    ensures comments == CommentSpans(Tokens(text))
  {
    var buffer := new char[|text|](k requires 0 <= k < |text| => text[k]);
    assert buffer[..] == text;
    spans, comments := LexInto(text, strings, buffer);
    out := buffer[..];
  }
}

/** What can be read off lexed text: brackets, `;` and `,` that survive lexing are code. */
module LexedShape {
  import opened Lexer
  import opened LexerBlanking
  import opened Words

  /** Characters of string and char-literal delimiters. */
  predicate IsMark(c: char)
  {
    c == '"' || c == '\'' || c == 'b' || c == 'r' || c == '#'
  }

  predicate Solid(c: char)
  {
    !IsMark(c) && c != ' ' && c != '\n'
  }

  lemma {:induction false} HashRun(text: string, j: nat, k: nat)
    requires j <= |text| && j <= k < HashEnd(text, j)
    ensures text[k] == '#'
    decreases |text| - j
  {
    if j < k { HashRun(text, j + 1, k); }
  }

  lemma {:induction false} StrEndQuote(text: string, j: nat)
    requires j <= |text| + 1 && StrEnd(text, j) < |text|
    ensures text[StrEnd(text, j)] == '"'
    decreases |text| + 1 - j
  {
    if text[j] == '\\' { StrEndQuote(text, j + 2); }
    else if text[j] != '"' { StrEndQuote(text, j + 1); }
  }

  lemma {:induction false} CharEndQuote(text: string, j: nat)
    requires j <= |text| + 1 && CharEnd(text, j) < |text|
    ensures text[CharEnd(text, j)] == '\''
    decreases |text| + 1 - j
  {
    if text[j] == '\\' { CharEndQuote(text, j + 2); }
    else if text[j] != '\'' { CharEndQuote(text, j + 1); }
  }

  lemma HashesOfCloser(text: string, q: nat, hashes: nat, a: nat)
    requires ClosesRaw(text, q, hashes) && q < a <= q + hashes
    ensures a < |text| && text[a] == '#'
  {
  }

  lemma RawMarks(text: string, p: nat, k: nat)
    requires p < |text| && RawPrefixLen(text, p) > 0
    requires var t := RawStep(text, p); (p <= k < t.bodyStart || t.bodyEnd <= k < t.stop)
    ensures k < |text| && IsMark(text[k])
  {
    var j := RawR(text, p);
    if j < k < HashEnd(text, j + 1) {
      HashRun(text, j + 1, k);
    }
  }

  lemma StringMarks(text: string, p: nat, k: nat)
    requires OpensString(text, p)
    requires var t := StringStep(text, p); (p <= k < t.bodyStart || t.bodyEnd <= k < t.stop)
    ensures k < |text| && IsMark(text[k])
  {
    var j := StrEnd(text, QuoteAt(text, p) + 1);
    if j < |text| {
      StrEndQuote(text, QuoteAt(text, p) + 1);
    }
  }

  lemma QuoteMarks(text: string, p: nat, k: nat)
    requires OpensQuote(text, p) && QuoteStep(text, p).kind == CharLiteral
    requires var t := QuoteStep(text, p); (p <= k < t.bodyStart || t.bodyEnd <= k < t.stop)
    ensures k < |text| && IsMark(text[k])
  {
    var j := QuoteAt(text, p) + 1;
    if CharAt(text, j, '\\') && CharEnd(text, j + 2) < |text| {
      CharEndQuote(text, j + 2);
    }
  }

  /** Outside its interior a literal token consists of delimiter marks. */
  lemma TokenMarks(text: string, p: nat, k: nat)
    requires p < |text| && Step(text, p).kind != Code && p <= k < Step(text, p).stop
    requires !(Step(text, p).bodyStart <= k < Step(text, p).bodyEnd)
    ensures k < |text| && IsMark(text[k])
  {
    if text[p] == '/' && (CharAt(text, p + 1, '/') || CharAt(text, p + 1, '*')) {
    } else if RawPrefixLen(text, p) > 0 {
      RawMarks(text, p, k);
    } else if OpensString(text, p) {
      StringMarks(text, p, k);
    } else {
      QuoteMarks(text, p, k);
    }
  }

  /** The token of the walk that covers position k. */
  lemma {:induction false} Covering(text: string, i: nat, k: nat) returns (p: nat)
    requires i <= k < |text|
    ensures p <= k && Visits(text, i, p) && k < Step(text, p).stop
    decreases |text| - i
  {
    StepShape(text, i);
    if k < Step(text, i).stop {
      p := i;
    } else {
      p := Covering(text, Step(text, i).stop, k);
      VisitBounds(text, Step(text, i).stop, p);
      VisitNext(text, i, p);
    }
  }

  /** A token's interior is blank in the lexed text. */
  lemma InteriorBlank(text: string, p: nat, k: nat)
    requires p < |text| && Visits(text, 0, p) && Step(text, p).kind != Code
    requires Step(text, p).bodyStart <= k < Step(text, p).bodyEnd && k < |text|
    ensures Lexed(text, true)[k] == ' ' || Lexed(text, true)[k] == '\n'
  {
    StepShape(text, p);
    BlanksStep(text, p, true, k);
    BlanksSkip(text, 0, p, true, k);
    BlanksFromWalk(text, 0, true, k);
    LexedAt(text, true, k);
  }

  lemma KeptChar(text: string, k: nat)
    requires k < |text| && Lexed(text, true)[k] != ' '
    ensures Lexed(text, true)[k] == text[k]
  {
    LexedAt(text, true, k);
  }

  /** A solid character of the lexed text is one code step of the walk. */
  lemma SolidIsCode(text: string, k: nat)
    requires k < |text| && Solid(Lexed(text, true)[k])
    ensures Visits(text, 0, k) && Step(text, k).kind == Code && Visits(text, 0, k + 1)
  {
    var p := Covering(text, 0, k);
    KeptChar(text, k);
    if Step(text, p).kind != Code {
      if Step(text, p).bodyStart <= k < Step(text, p).bodyEnd {
        InteriorBlank(text, p, k);
      } else {
        TokenMarks(text, p, k);
      }
      assert false;
    }
    CodeIsOne(text, p);
    assert Visits(text, k + 1, k + 1);
    VisitNext(text, k, k + 1);
    VisitTrans(text, 0, k, k + 1);
  }

  lemma CodeIsOne(text: string, p: nat)
    requires p < |text| && Step(text, p).kind == Code
    ensures Step(text, p) == CodeStep(p)
  {
  }

  /** From a visited position the walk passes whitespace of the lexed text without jumping over what follows. */
  lemma {:induction false} SpaceIsVisited(text: string, p: nat, j: nat)
    requires p <= j < |text| && Visits(text, 0, p)
    requires forall k :: p <= k < j ==> IsSpace(Lexed(text, true)[k])
    requires !IsSpace(Lexed(text, true)[j])
    ensures Visits(text, 0, j)
    decreases j - p
  {
    if p < j {
      StepShape(text, p);
      var t := Step(text, p);
      if t.kind == Code {
        CodeIsOne(text, p);
      } else if IsComment(t) {
        CommentShape(text, p);
        if j < t.stop {
          InteriorBlank(text, p, j);
          assert false;
        }
      } else {
        LiteralStart(text, p);
        TokenMarks(text, p, p);
        MarkKept(text, p);
        assert false;
      }
      assert Visits(text, t.stop, t.stop);
      VisitNext(text, p, t.stop);
      VisitTrans(text, 0, p, t.stop);
      SpaceIsVisited(text, t.stop, j);
    }
  }

  lemma CommentShape(text: string, p: nat)
    requires p < |text| && IsComment(Step(text, p))
    ensures Step(text, p).bodyStart == p && Step(text, p).bodyEnd == Step(text, p).stop
  {
  }

  lemma LiteralStart(text: string, p: nat)
    requires p < |text| && Step(text, p).kind != Code && !IsComment(Step(text, p))
    ensures p < Step(text, p).bodyStart && p < Step(text, p).stop
  {
    StepShape(text, p);
  }

  /** The first character of a literal is never blanked. */
  lemma MarkKept(text: string, p: nat)
    requires p < |text| && Visits(text, 0, p) && Step(text, p).kind != Code && !IsComment(Step(text, p))
    ensures Lexed(text, true)[p] == text[p]
  {
    LiteralStart(text, p);
    StepShape(text, p);
    BlanksStep(text, p, true, p);
    BlanksOnlyAhead(text, Step(text, p).stop, true, p);
    BlanksSkip(text, 0, p, true, p);
    BlanksFromWalk(text, 0, true, p);
    LexedAt(text, true, p);
  }

  /** At a visited quote of the lexed text a plain string begins; its interior is blank, so the next
      quote is its closer and the walk goes on right after it. */
  lemma QuotedSkip(text: string, j: nat)
    requires j < |text| && Visits(text, 0, j) && Lexed(text, true)[j] == '"'
    ensures var k := FindChar(Lexed(text, true), '"', j + 1);
            && (forall x :: j < x < k ==> Lexed(text, true)[x] == ' ' || Lexed(text, true)[x] == '\n')
            && (k < |text| ==> Visits(text, 0, k + 1))
  {
    KeptChar(text, j);
    var t := Step(text, j);
    assert t.kind == PlainString && t.bodyStart == j + 1;
    StepShape(text, j);
    forall x | j < x < t.bodyEnd
      ensures Lexed(text, true)[x] == ' ' || Lexed(text, true)[x] == '\n'
    {
      InteriorBlank(text, j, x);
    }
    FindCharSkips(Lexed(text, true), '"', j + 1, t.bodyEnd);
    if t.bodyEnd < |text| {
      CloserKept(text, j);
      assert Visits(text, t.stop, t.stop);
      VisitNext(text, j, t.stop);
      VisitTrans(text, 0, j, t.stop);
    }
  }

  lemma {:induction false} FindCharSkips(s: string, c: char, i: nat, j: nat)
    requires i <= j <= |s| && forall k :: i <= k < j ==> s[k] != c
    ensures FindChar(s, c, i) == FindChar(s, c, j)
    decreases j - i
  {
    if i < j { FindCharSkips(s, c, i + 1, j); }
  }

  lemma CloserIs(text: string, j: nat)
    requires j < |text| && Step(text, j).kind == PlainString && Step(text, j).bodyEnd < |text|
    ensures Step(text, j).stop == Step(text, j).bodyEnd + 1 && text[Step(text, j).bodyEnd] == '"'
  {
    assert OpensString(text, j) && Step(text, j) == StringStep(text, j);
    StrEndQuote(text, QuoteAt(text, j) + 1);
  }

  lemma CloserKept(text: string, j: nat)
    requires j < |text| && Visits(text, 0, j) && Step(text, j).kind == PlainString && Step(text, j).bodyEnd < |text|
    ensures Step(text, j).stop == Step(text, j).bodyEnd + 1
    ensures Lexed(text, true)[Step(text, j).bodyEnd] == '"'
  {
    CloserIs(text, j);
    StepShape(text, j);
    LastKept(text, j, Step(text, j));
  }

  /** The last character of a token whose body ends before it is not blanked. */
  lemma LastKept(text: string, j: nat, t: Token)
    requires j < |text| && Visits(text, 0, j) && t == Step(text, j) && j < t.stop <= |text| && t.stop == t.bodyEnd + 1
    ensures Lexed(text, true)[t.bodyEnd] == text[t.bodyEnd]
  {
    BlanksStep(text, j, true, t.bodyEnd);
    BlanksOnlyAhead(text, t.stop, true, t.bodyEnd);
    BlanksSkip(text, 0, j, true, t.bodyEnd);
    BlanksFromWalk(text, 0, true, t.bodyEnd);
    LexedAt(text, true, t.bodyEnd);
  }
}

/** Blanking a region between two positions the walk visits commutes with lexing. */
module LexerBlanking {
  import opened Lexer

  /** The walk from `i` stands at `p` at some point. */
  ghost predicate Visits(text: string, i: nat, p: nat)
    requires i <= |text|
    decreases |text| - i
  {
    p == i || (i < |text| && (StepShape(text, i); Step(text, i).stop <= p && Visits(text, Step(text, i).stop, p)))
  }

  /** `text'` is `text` with [a, e) blanked; the region is at least two wide. */
  ghost predicate Cut(text: string, text': string, a: nat, e: nat)
  {
    a + 2 <= e <= |text| && text' == BlankRange(text, a, e)
  }

  lemma CutAt(text: string, text': string, a: nat, e: nat, k: nat)
    requires Cut(text, text', a, e)
    ensures k < a || e <= k ==> forall c :: CharAt(text', k, c) <==> CharAt(text, k, c)
    ensures a <= k < e ==> forall c :: c != ' ' && c != '\n' ==> !CharAt(text', k, c)
    ensures CharAt(text', k, '\n') <==> CharAt(text, k, '\n')
  {
  }

  // ----- scans that end before the region -----

  lemma {:induction false} FindCharBefore(text: string, text': string, a: nat, e: nat, i: nat)
    requires Cut(text, text', a, e) && i <= |text| && FindChar(text, '\n', i) <= a
    ensures FindChar(text', '\n', i) == FindChar(text, '\n', i)
    decreases |text| - i
  {
    CutAt(text, text', a, e, i);
    if i < |text| && text[i] != '\n' {
      FindCharBefore(text, text', a, e, i + 1);
    }
  }

  lemma {:induction false} BlockEndBefore(text: string, text': string, a: nat, e: nat, j: nat, depth: nat)
    requires Cut(text, text', a, e) && j <= |text| && BlockEnd(text, j, depth) <= a
    ensures BlockEnd(text', j, depth) == BlockEnd(text, j, depth)
    decreases |text| - j
  {
    if depth > 0 {
      CutAt(text, text', a, e, j);
      CutAt(text, text', a, e, j + 1);
      if CharAt(text, j, '/') && CharAt(text, j + 1, '*') {
        BlockEndBefore(text, text', a, e, j + 2, depth + 1);
      } else if CharAt(text, j, '*') && CharAt(text, j + 1, '/') {
        BlockEndBefore(text, text', a, e, j + 2, depth - 1);
      } else {
        if j + 1 == a { BlockEndAt(text, a, depth); }
        BlockEndBefore(text, text', a, e, j + 1, depth);
      }
    }
  }

  /** An open comment reads on. */
  lemma BlockEndAt(text: string, j: nat, depth: nat)
    requires j < |text| && depth > 0
    ensures BlockEnd(text, j, depth) > j
  {
  }

  lemma {:induction false} HashEndCut(text: string, text': string, a: nat, e: nat, j: nat)
    requires Cut(text, text', a, e) && j <= a
    ensures HashEnd(text', j) == Min(HashEnd(text, j), a)
    decreases a - j
  {
    CutAt(text, text', a, e, j);
    if j < a && CharAt(text, j, '#') {
      HashEndCut(text, text', a, e, j + 1);
    }
  }

  lemma RawPrefixCut(text: string, text': string, a: nat, e: nat, i: nat)
    requires Cut(text, text', a, e) && i < a
    ensures RawPrefixLen(text', i) == if i + RawPrefixLen(text, i) <= a then RawPrefixLen(text, i) else 0
  {
    var j := RawR(text, i);
    CutAt(text, text', a, e, i);
    CutAt(text, text', a, e, j);
    if j < a {
      HashEndCut(text, text', a, e, j + 1);
      CutAt(text, text', a, e, HashEnd(text', j + 1));
    }
  }

  lemma ClosesRawBefore(text: string, text': string, a: nat, e: nat, k: nat, hashes: nat)
    requires Cut(text, text', a, e)
    requires k + 1 + hashes <= a
    ensures ClosesRaw(text', k, hashes) <==> ClosesRaw(text, k, hashes)
  {
    assert forall h :: k < h <= k + hashes ==> text'[h] == text[h];
    CutAt(text, text', a, e, k);
  }

  lemma {:induction false} FindCloseBefore(text: string, text': string, a: nat, e: nat, hashes: nat, i: nat)
    requires Cut(text, text', a, e) && i <= |text| && FindClose(text, hashes, i) + 1 + hashes <= a
    ensures FindClose(text', hashes, i) == FindClose(text, hashes, i)
    decreases |text| - i
  {
    ClosesRawBefore(text, text', a, e, i, hashes);
    if !ClosesRaw(text, i, hashes) {
      FindCloseBefore(text, text', a, e, hashes, i + 1);
    }
  }

  lemma {:induction false} StrEndBefore(text: string, text': string, a: nat, e: nat, j: nat)
    requires Cut(text, text', a, e) && j <= |text| + 1 && StrEnd(text, j) < a
    ensures StrEnd(text', j) == StrEnd(text, j)
    decreases |text| + 1 - j
  {
    CutAt(text, text', a, e, j);
    if text[j] == '\\' {
      StrEndBefore(text, text', a, e, j + 2);
    } else if text[j] != '"' {
      StrEndBefore(text, text', a, e, j + 1);
    }
  }

  lemma {:induction false} CharEndBefore(text: string, text': string, a: nat, e: nat, j: nat)
    requires Cut(text, text', a, e) && j <= |text| + 1 && CharEnd(text, j) < a
    ensures CharEnd(text', j) == CharEnd(text, j)
    decreases |text| + 1 - j
  {
    CutAt(text, text', a, e, j);
    if text[j] == '\\' {
      CharEndBefore(text, text', a, e, j + 2);
    } else if text[j] != '\'' {
      CharEndBefore(text, text', a, e, j + 1);
    }
  }

  // ----- steps before, inside and after the region -----

  lemma CodeBefore(text: string, text': string, a: nat, e: nat, p: nat)
    requires Cut(text, text', a, e) && p < a && Step(text, p).kind == Code
    ensures Step(text', p) == CodeStep(p)
  {
    RawPrefixCut(text, text', a, e, p);
    CutAt(text, text', a, e, p);
    CutAt(text, text', a, e, p + 1);
    CutAt(text, text', a, e, p + 2);
    CutAt(text, text', a, e, p + 3);
  }

  /** A char literal is read by its quote, and nothing else opens there. */
  lemma IsQuoteStep(text: string, p: nat)
    requires p < |text| && Step(text, p).kind == CharLiteral
    ensures text[p] != '/' && RawPrefixLen(text, p) == 0 && !OpensString(text, p) && OpensQuote(text, p)
    ensures Step(text, p) == QuoteStep(text, p)
  {
  }

  lemma QuoteStepTaken(text: string, p: nat)
    requires p < |text| && text[p] != '/' && RawPrefixLen(text, p) == 0 && !OpensString(text, p) && OpensQuote(text, p)
    ensures Step(text, p) == QuoteStep(text, p)
  {
  }

  lemma QuoteBefore(text: string, text': string, a: nat, e: nat, p: nat)
    requires Cut(text, text', a, e) && p < a && Step(text, p).kind == CharLiteral && Step(text, p).stop <= a
    ensures Step(text', p) == Step(text, p)
  {
    IsQuoteStep(text, p);
    RawPrefixCut(text, text', a, e, p);
    CutAt(text, text', a, e, p);
    CutAt(text, text', a, e, p + 1);
    QuoteStepTaken(text', p);
    QuoteStepBefore(text, text', a, e, p);
  }

  lemma QuoteStepBefore(text: string, text': string, a: nat, e: nat, p: nat)
    requires Cut(text, text', a, e) && p < a && OpensQuote(text, p) && OpensQuote(text', p) && text'[p] == text[p]
    requires QuoteStep(text, p).kind == CharLiteral && QuoteStep(text, p).stop <= a
    ensures QuoteStep(text', p) == QuoteStep(text, p)
  {
    var j := QuoteAt(text, p) + 1;
    CutAt(text, text', a, e, j);
    CutAt(text, text', a, e, j + 1);
    if CharAt(text, j, '\\') {
      CharEndBefore(text, text', a, e, j + 2);
    }
  }

  lemma StringBefore(text: string, text': string, a: nat, e: nat, p: nat)
    requires Cut(text, text', a, e) && p < a && Step(text, p).kind == PlainString && Step(text, p).stop <= a
    ensures Step(text', p) == Step(text, p)
  {
    RawPrefixCut(text, text', a, e, p);
    CutAt(text, text', a, e, p);
    CutAt(text, text', a, e, p + 1);
    StrEndBefore(text, text', a, e, QuoteAt(text, p) + 1);
  }

  lemma RawBefore(text: string, text': string, a: nat, e: nat, p: nat)
    requires Cut(text, text', a, e) && p < a && Step(text, p).kind == RawString && Step(text, p).stop <= a
    ensures Step(text', p) == Step(text, p)
  {
    RawPrefixCut(text, text', a, e, p);
    CutAt(text, text', a, e, p);
    FindCloseBefore(text, text', a, e, RawHashes(text, p), p + RawPrefixLen(text, p));
  }

  lemma CommentBefore(text: string, text': string, a: nat, e: nat, p: nat)
    requires Cut(text, text', a, e) && p < a && IsComment(Step(text, p)) && Step(text, p).stop <= a
    ensures Step(text', p) == Step(text, p)
  {
    CutAt(text, text', a, e, p);
    CutAt(text, text', a, e, p + 1);
    if Step(text, p).kind == LineComment {
      assert FindChar(text, '\n', p) == FindChar(text, '\n', p + 1);
      assert FindChar(text, '\n', p + 1) == FindChar(text, '\n', p + 2);
      FindCharBefore(text, text', a, e, p);
    } else {
      BlockEndBefore(text, text', a, e, p + 2, 1);
    }
  }

  /** A token that ends by `a` is read the same way after blanking. */
  lemma StepBefore(text: string, text': string, a: nat, e: nat, p: nat)
    requires Cut(text, text', a, e) && p < a && Step(text, p).stop <= a
    ensures Step(text', p) == Step(text, p)
  {
    match Step(text, p).kind
    case Code => CodeBefore(text, text', a, e, p);
    case CharLiteral => QuoteBefore(text, text', a, e, p);
    case PlainString => StringBefore(text, text', a, e, p);
    case RawString => RawBefore(text, text', a, e, p);
    case LineComment => CommentBefore(text, text', a, e, p);
    case BlockComment => CommentBefore(text, text', a, e, p);
  }

  lemma StepInside(text: string, text': string, a: nat, e: nat, p: nat)
    requires Cut(text, text', a, e) && a <= p < e
    ensures Step(text', p) == CodeStep(p)
  {
    CutAt(text, text', a, e, p);
  }

  // ----- scans that start after the region see the same text -----

  ghost predicate SameFrom(text: string, text': string, e: nat)
  {
    |text| == |text'| && forall k :: e <= k < |text| ==> text[k] == text'[k]
  }

  lemma {:induction false} FindCharAfter(text: string, text': string, e: nat, i: nat)
    requires SameFrom(text, text', e) && e <= i <= |text|
    ensures FindChar(text', '\n', i) == FindChar(text, '\n', i)
    decreases |text| - i
  {
    if i < |text| { FindCharAfter(text, text', e, i + 1); }
  }

  lemma {:induction false} BlockEndAfter(text: string, text': string, e: nat, j: nat, depth: nat)
    requires SameFrom(text, text', e) && e <= j <= |text|
    ensures BlockEnd(text', j, depth) == BlockEnd(text, j, depth)
    decreases |text| - j
  {
    if j < |text| && depth > 0 {
      if CharAt(text, j, '/') && CharAt(text, j + 1, '*') {
        BlockEndAfter(text, text', e, j + 2, depth + 1);
      } else if CharAt(text, j, '*') && CharAt(text, j + 1, '/') {
        BlockEndAfter(text, text', e, j + 2, depth - 1);
      } else {
        BlockEndAfter(text, text', e, j + 1, depth);
      }
    }
  }

  lemma {:induction false} HashEndAfter(text: string, text': string, e: nat, j: nat)
    requires SameFrom(text, text', e) && e <= j <= |text|
    ensures HashEnd(text', j) == HashEnd(text, j)
    decreases |text| - j
  {
    if j < |text| { HashEndAfter(text, text', e, j + 1); }
  }

  lemma {:induction false} FindCloseAfter(text: string, text': string, e: nat, hashes: nat, i: nat)
    requires SameFrom(text, text', e) && e <= i <= |text|
    ensures FindClose(text', hashes, i) == FindClose(text, hashes, i)
    decreases |text| - i
  {
    if i < |text| {
      assert ClosesRaw(text', i, hashes) <==> ClosesRaw(text, i, hashes);
      FindCloseAfter(text, text', e, hashes, i + 1);
    }
  }

  lemma {:induction false} StrEndAfter(text: string, text': string, e: nat, j: nat)
    requires SameFrom(text, text', e) && e <= j <= |text| + 1
    ensures StrEnd(text', j) == StrEnd(text, j)
    decreases |text| + 1 - j
  {
    if j < |text| {
      StrEndAfter(text, text', e, j + 1);
      StrEndAfter(text, text', e, j + 2);
    }
  }

  lemma {:induction false} CharEndAfter(text: string, text': string, e: nat, j: nat)
    requires SameFrom(text, text', e) && e <= j <= |text| + 1
    ensures CharEnd(text', j) == CharEnd(text, j)
    decreases |text| + 1 - j
  {
    if j < |text| {
      CharEndAfter(text, text', e, j + 1);
      CharEndAfter(text, text', e, j + 2);
    }
  }

  lemma RawPrefixAfter(text: string, text': string, e: nat, i: nat)
    requires SameFrom(text, text', e) && e <= i < |text|
    ensures RawPrefixLen(text', i) == RawPrefixLen(text, i)
  {
    var j := RawR(text, i);
    if j < |text| { HashEndAfter(text, text', e, j + 1); }
  }

  lemma CharsAfter(text: string, text': string, e: nat, k: nat, c: char)
    requires SameFrom(text, text', e) && e <= k
    ensures CharAt(text', k, c) <==> CharAt(text, k, c)
  {
  }

  lemma QuotesAfter(text: string, text': string, e: nat, p: nat)
    requires SameFrom(text, text', e) && e <= p < |text|
    ensures OpensString(text', p) <==> OpensString(text, p)
    ensures OpensString(text, p) ==> StringStep(text', p) == StringStep(text, p)
    ensures OpensQuote(text', p) <==> OpensQuote(text, p)
    ensures OpensQuote(text, p) ==> QuoteStep(text', p) == QuoteStep(text, p)
  {
    var q := QuoteAt(text, p);
    if OpensString(text, p) {
      StrEndAfter(text, text', e, q + 1);
    }
    if OpensQuote(text, p) && CharAt(text, q + 1, '\\') {
      CharEndAfter(text, text', e, q + 3);
    }
  }

  lemma StepAfter(text: string, text': string, e: nat, p: nat)
    requires SameFrom(text, text', e) && e <= p < |text|
    ensures Step(text', p) == Step(text, p)
  {
    RawPrefixAfter(text, text', e, p);
    CharsAfter(text, text', e, p + 1, '/');
    CharsAfter(text, text', e, p + 1, '*');
    if text[p] == '/' && CharAt(text, p + 1, '/') {
      FindCharAfter(text, text', e, p);
    } else if text[p] == '/' && CharAt(text, p + 1, '*') {
      BlockEndAfter(text, text', e, p + 2, 1);
    } else if RawPrefixLen(text, p) > 0 {
      FindCloseAfter(text, text', e, RawHashes(text, p), p + RawPrefixLen(text, p));
    } else {
      QuotesAfter(text, text', e, p);
    }
  }

  // ----- the walk -----

  lemma VisitStep(text: string, i: nat, p: nat)
    requires i < |text| && p != i && Visits(text, i, p)
    ensures i < Step(text, i).stop <= p && Step(text, i).stop <= |text| && Visits(text, Step(text, i).stop, p)
  {
    StepShape(text, i);
  }

  lemma VisitNext(text: string, i: nat, p: nat)
    requires i < |text| && Step(text, i).stop <= |text| && Step(text, i).stop <= p && Visits(text, Step(text, i).stop, p)
    ensures Visits(text, i, p)
  {
  }

  lemma {:induction false} VisitBounds(text: string, i: nat, p: nat)
    requires i <= |text| && Visits(text, i, p)
    ensures i <= p <= |text|
    decreases |text| - i
  {
    if p != i {
      VisitStep(text, i, p);
      VisitBounds(text, Step(text, i).stop, p);
    }
  }

  /** Two visited positions: the walk from the first reaches the second. */
  lemma {:induction false} VisitBetween(text: string, i: nat, p: nat, q: nat)
    requires i <= |text| && Visits(text, i, p) && Visits(text, i, q) && p <= q <= |text|
    ensures Visits(text, p, q)
    decreases |text| - i
  {
    if p != i {
      VisitBounds(text, i, p);
      VisitStep(text, i, p);
      VisitStep(text, i, q);
      VisitBetween(text, Step(text, i).stop, p, q);
    }
  }

  lemma {:induction false} VisitTrans(text: string, i: nat, p: nat, q: nat)
    requires i <= |text| && p <= |text| && Visits(text, i, p) && Visits(text, p, q)
    ensures Visits(text, i, q)
    decreases |text| - i
  {
    if p != i {
      VisitStep(text, i, p);
      VisitTrans(text, Step(text, i).stop, p, q);
      VisitBounds(text, Step(text, i).stop, q);
      VisitNext(text, i, q);
    }
  }

  lemma {:induction false} VisitsBefore(text: string, text': string, a: nat, e: nat, i: nat, p: nat)
    requires Cut(text, text', a, e) && i <= a && Visits(text, i, p) && p <= a
    ensures Visits(text', i, p)
    decreases |text| - i
  {
    if p != i {
      VisitStep(text, i, p);
      StepBefore(text, text', a, e, i);
      VisitsBefore(text, text', a, e, Step(text, i).stop, p);
      VisitNext(text', i, p);
    }
  }

  lemma {:induction false} VisitsInside(text: string, text': string, a: nat, e: nat, i: nat, p: nat)
    requires Cut(text, text', a, e) && a <= i <= p <= e
    ensures Visits(text', i, p)
    decreases e - i
  {
    if p != i {
      StepInside(text, text', a, e, i);
      VisitsInside(text, text', a, e, i + 1, p);
      VisitNext(text', i, p);
    }
  }

  lemma {:induction false} VisitsAfter(text: string, text': string, e: nat, i: nat, p: nat)
    requires SameFrom(text, text', e) && e <= i <= |text| && Visits(text, i, p)
    ensures Visits(text', i, p)
    decreases |text| - i
  {
    if p != i {
      VisitStep(text, i, p);
      StepAfter(text, text', e, i);
      VisitsAfter(text, text', e, Step(text, i).stop, p);
      VisitNext(text', i, p);
    }
  }

  /** Blanking between visited positions loses none of the visited positions. */
  lemma VisitsKept(text: string, text': string, a: nat, e: nat, p: nat)
    requires Cut(text, text', a, e) && Visits(text, 0, a) && Visits(text, 0, e) && Visits(text, 0, p)
    ensures Visits(text', 0, p)
  {
    VisitsBefore(text, text', a, e, 0, a);
    VisitBounds(text, 0, p);
    if p <= a {
      VisitsBefore(text, text', a, e, 0, p);
    } else if p <= e {
      VisitsInside(text, text', a, e, a, p);
      VisitTrans(text', 0, a, p);
    } else {
      VisitsInside(text, text', a, e, a, e);
      VisitBetween(text, 0, e, p);
      VisitsAfter(text, text', e, e, p);
      VisitTrans(text', 0, a, e);
      VisitTrans(text', 0, e, p);
    }
  }

  // ----- what is blanked -----

  /** The walk from `i` blanks position k. */
  ghost predicate BlanksFrom(text: string, i: nat, strings: bool, k: nat)
    requires i <= |text|
    decreases |text| - i
  {
    i < |text| && (
      StepShape(text, i);
      var t := Step(text, i);
      (Blanks(t, strings) && t.bodyStart <= k < t.bodyEnd) || BlanksFrom(text, t.stop, strings, k))
  }

  lemma {:induction false} BlanksFromWalk(text: string, i: nat, strings: bool, k: nat)
    requires i <= |text|
    ensures BlanksFrom(text, i, strings, k) <==> BlankedAt(Walk(text, i), strings, k)
    decreases |text| - i
  {
    if i < |text| {
      StepShape(text, i);
      var t := Step(text, i);
      BlanksFromWalk(text, t.stop, strings, k);
      BlankedAtCons(t, Walk(text, t.stop), strings, k);
    }
  }

  lemma BlankedAtCons(t: Token, rest: seq<Token>, strings: bool, k: nat)
    ensures BlankedAt([t] + rest, strings, k) <==>
            (Blanks(t, strings) && t.bodyStart <= k < t.bodyEnd) || BlankedAt(rest, strings, k)
  {
    var all := [t] + rest;
    if BlankedAt(rest, strings, k) {
      var i :| 0 <= i < |rest| && Blanks(rest[i], strings) && rest[i].bodyStart <= k < rest[i].bodyEnd;
      assert all[i + 1] == rest[i];
    }
    if Blanks(t, strings) && t.bodyStart <= k < t.bodyEnd {
      assert all[0] == t;
    }
  }

  lemma BlanksStep(text: string, i: nat, strings: bool, k: nat)
    requires i < |text| && Step(text, i).stop <= |text|
    ensures BlanksFrom(text, i, strings, k) <==>
            (Blanks(Step(text, i), strings) && Step(text, i).bodyStart <= k < Step(text, i).bodyEnd)
            || BlanksFrom(text, Step(text, i).stop, strings, k)
  {
  }

  lemma {:induction false} BlanksOnlyAhead(text: string, i: nat, strings: bool, k: nat)
    requires i <= |text| && k < i
    ensures !BlanksFrom(text, i, strings, k)
    decreases |text| - i
  {
    if i < |text| {
      StepShape(text, i);
      BlanksOnlyAhead(text, Step(text, i).stop, strings, k);
    }
  }

  /** Positions at or past `p` are blanked by the part of the walk from `p` on. */
  lemma {:induction false} BlanksSkip(text: string, i: nat, p: nat, strings: bool, k: nat)
    requires i <= |text| && p <= |text| && Visits(text, i, p) && p <= k
    ensures BlanksFrom(text, i, strings, k) <==> BlanksFrom(text, p, strings, k)
    decreases |text| - i
  {
    if p != i {
      VisitStep(text, i, p);
      StepShape(text, i);
      BlanksSkip(text, Step(text, i).stop, p, strings, k);
      BlanksStep(text, i, strings, k);
    }
  }

  lemma {:induction false} BlanksBefore(text: string, text': string, a: nat, e: nat, i: nat, strings: bool, k: nat)
    requires Cut(text, text', a, e) && i <= a && Visits(text, i, a) && k < a
    ensures BlanksFrom(text', i, strings, k) <==> BlanksFrom(text, i, strings, k)
    decreases |text| - i
  {
    if i == a {
      BlanksOnlyAhead(text, a, strings, k);
      BlanksOnlyAhead(text', a, strings, k);
    } else {
      VisitStep(text, i, a);
      StepBefore(text, text', a, e, i);
      BlanksBefore(text, text', a, e, Step(text, i).stop, strings, k);
      BlanksStep(text, i, strings, k);
      BlanksStep(text', i, strings, k);
    }
  }

  lemma {:induction false} BlanksAfter(text: string, text': string, e: nat, i: nat, strings: bool, k: nat)
    requires SameFrom(text, text', e) && e <= i <= |text|
    ensures BlanksFrom(text', i, strings, k) <==> BlanksFrom(text, i, strings, k)
    decreases |text| - i
  {
    if i < |text| {
      StepShape(text, i);
      StepAfter(text, text', e, i);
      BlanksAfter(text, text', e, Step(text, i).stop, strings, k);
      BlanksStep(text, i, strings, k);
      BlanksStep(text', i, strings, k);
    }
  }

  lemma BlanksOutside(text: string, text': string, a: nat, e: nat, strings: bool, k: nat)
    requires Cut(text, text', a, e) && Visits(text, 0, a) && Visits(text, 0, e) && (k < a || e <= k)
    ensures BlanksFrom(text', 0, strings, k) <==> BlanksFrom(text, 0, strings, k)
  {
    if k < a {
      BlanksBefore(text, text', a, e, 0, strings, k);
    } else {
      VisitsKept(text, text', a, e, e);
      BlanksSkip(text, 0, e, strings, k);
      BlanksSkip(text', 0, e, strings, k);
      BlanksAfter(text, text', e, e, strings, k);
    }
  }

  /** Lexing the blanked text is blanking the lexed text. */
  lemma LexCommutes(text: string, text': string, a: nat, e: nat, strings: bool)
    requires Cut(text, text', a, e) && Visits(text, 0, a) && Visits(text, 0, e)
    ensures Lexed(text', strings) == BlankRange(Lexed(text, strings), a, e)
  {
    forall k | 0 <= k < |text|
      ensures Lexed(text', strings)[k] == BlankRange(Lexed(text, strings), a, e)[k]
    {
      LexedAt(text, strings, k);
      LexedAt(text', strings, k);
      if k < a || e <= k {
        BlanksOutside(text, text', a, e, strings, k);
        BlanksFromWalk(text, 0, strings, k);
        BlanksFromWalk(text', 0, strings, k);
      }
    }
  }
}

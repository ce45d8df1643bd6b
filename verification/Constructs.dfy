/** Which construct a text opens: keyword by keyword, after any run of qualifiers. */
module Constructs {

  import opened Delimiters
  import opened Extent
  import Lexer

  // ----- qualifiers -----

  /** The string that opens at `j` closes right before `n`. */
  ghost predicate Quoted(s: string, j: nat, n: nat)
  {
    j + 1 < n <= |s| && s[j] == '"' && s[n - 1] == '"' && forall k :: j < k < n - 1 ==> s[k] != '"'
  }

  /** A qualifier stands at `b` and the construct goes on at `n`: `pub`, `pub(...)`, `default`, `unsafe`, `async`,
      `auto`, `const` before `fn`, `extern "ABI"`. */
  ghost predicate Qualifies(s: string, b: nat, n: nat)
  {
    HasWord(s, b) && n <= |s| &&
    var e := WordEnd(s, b);
    var j := SkipWs(s, e);
    || (WordIs(s, b, "pub") && (if IsCh(s, j, '(') then ClosedAt(s, j, n) else n == j))
    || ((WordIs(s, b, "default") || WordIs(s, b, "unsafe") || WordIs(s, b, "async") || WordIs(s, b, "auto")) && n == e)
    || (WordIs(s, b, "const") && WordIs(s, j, "fn") && n == j)
    || (WordIs(s, b, "extern") && Quoted(s, j, n))
  }

  /** The construct goes on at `c`, past a qualifier at `b` and whitespace. */
  ghost predicate GoesOn(s: string, b: nat, c: nat)
  {
    exists n: nat :: Qualifies(s, b, n) && c == SkipWs(s, n)
  }

  /** Qualifiers stand at all positions of `p` but the last, with nothing but whitespace between them. */
  ghost predicate QualifierRun(s: string, i: nat, p: seq<nat>)
    requires i <= |s|
  {
    p != [] && p[0] == SkipWs(s, i) && forall x :: 0 <= x < |p| - 1 ==> GoesOn(s, p[x], p[x + 1])
  }

  lemma {:induction false} QuoteFound(s: string, i: nat, k: nat)
    requires i <= k < |s| && s[k] == '"' && forall x :: i <= x < k ==> s[x] != '"'
    ensures Lexer.FindChar(s, '"', i) == k
    decreases k - i
  {
    if i < k { QuoteFound(s, i + 1, k); }
  }

  lemma QualifierTurn(s: string, b: nat, n: nat)
    requires Qualifies(s, b, n)
    ensures WordTurn(s, b) == Again(n) && b < n
  {
    var e := WordEnd(s, b);
    var j := SkipWs(s, e);
    if WordIs(s, b, "pub") {
      if IsCh(s, j, '(') { StrictVsLenient(s, j); }
    } else if WordIs(s, b, "extern") {
      QuoteFound(s, j + 1, n - 1);
    }
  }

  lemma StepOver(s: string, i: nat, b: nat, n: nat, cls: CharClass)
    requires i <= |s| && SkipWs(s, i) == b && Qualifies(s, b, n)
    ensures Classify(s, i, cls) == Classify(s, n, cls)
  {
    QualifierTurn(s, b, n);
  }

  lemma SolidStays(s: string, i: nat)
    requires i <= |s|
    ensures SkipWs(s, SkipWs(s, i)) == SkipWs(s, i)
  {
  }

  lemma AfterSpace(s: string, i: nat, cls: CharClass)
    requires i <= |s|
    ensures Classify(s, i, cls) == Classify(s, SkipWs(s, i), cls)
  {
    SolidStays(s, i);
  }

  /** Qualifiers do not change what is opened. */
  lemma {:induction false} RunClassifies(s: string, i: nat, p: seq<nat>, cls: CharClass)
    requires i <= |s| && QualifierRun(s, i, p)
    ensures p[|p| - 1] <= |s| && SkipWs(s, p[|p| - 1]) == p[|p| - 1]
    ensures Classify(s, i, cls) == Classify(s, p[|p| - 1], cls)
    decreases |p|
  {
    AfterSpace(s, i, cls);
    SolidStays(s, i);
    if |p| > 1 {
      assert GoesOn(s, p[0], p[1]);
      var n: nat :| Qualifies(s, p[0], n) && p[1] == SkipWs(s, n);
      StepOver(s, i, p[0], n, cls);
      assert QualifierRun(s, n, p[1..]);
      RunClassifies(s, n, p[1..], cls);
    }
  }

  ghost predicate Unqualified(s: string, b: nat)
  {
    forall n: nat :: !Qualifies(s, b, n)
  }

  /** From every position some run leads to a place where no further qualifier stands. */
  lemma {:induction false} RunExists(s: string, i: nat) returns (p: seq<nat>)
    requires i <= |s|
    ensures QualifierRun(s, i, p) && Unqualified(s, p[|p| - 1])
    decreases |s| - i
  {
    var b := SkipWs(s, i);
    if n: nat :| Qualifies(s, b, n) {
      QualifierTurn(s, b, n);
      var q := RunExists(s, n);
      p := [b] + q;
      assert GoesOn(s, b, q[0]);
      forall x | 0 <= x < |p| - 1
        ensures GoesOn(s, p[x], p[x + 1])
      {
        if x > 0 { assert p[x] == q[x - 1] && p[x + 1] == q[x]; }
      }
    } else {
      p := [b];
    }
  }

  // ----- paths -----

  /** A `::ident` segment from `j` to `n`. */
  ghost predicate Segment(s: string, j: nat, n: nat)
  {
    j <= |s| &&
    var k := SkipWs(s, j);
    IsCh(s, k, ':') && IsCh(s, k + 1, ':') && HasWord(s, SkipWs(s, k + 2)) && n == WordEnd(s, SkipWs(s, k + 2))
  }

  ghost predicate NoSegment(s: string, j: nat)
  {
    forall n: nat :: !Segment(s, j, n)
  }

  /** All segments of the path whose first word stands at `b`. */
  ghost predicate PathRun(s: string, b: nat, q: seq<nat>)
    requires HasWord(s, b)
  {
    && q != [] && q[0] == WordEnd(s, b) && (forall x :: 0 <= x < |q| - 1 ==> Segment(s, q[x], q[x + 1]))
    && NoSegment(s, q[|q| - 1])
  }

  lemma {:induction false} PathRunEnds(s: string, q: seq<nat>)
    requires q != [] && q[0] <= |s| && (forall x :: 0 <= x < |q| - 1 ==> Segment(s, q[x], q[x + 1]))
    requires NoSegment(s, q[|q| - 1])
    ensures q[|q| - 1] <= |s| && PathEnd(s, q[0]) == q[|q| - 1]
    decreases |q|
  {
    if |q| > 1 {
      assert Segment(s, q[0], q[1]);
      var r := q[1..];
      assert forall x :: 0 <= x < |r| ==> r[x] == q[x + 1];
      PathRunEnds(s, r);
    } else {
      LastSegment(s, q[0]);
    }
  }

  lemma LastSegment(s: string, j: nat)
    requires j <= |s|
    ensures NoSegment(s, j) <==> !(var k := SkipWs(s, j); IsCh(s, k, ':') && IsCh(s, k + 1, ':') && HasWord(s, SkipWs(s, k + 2)))
  {
    var k := SkipWs(s, j);
    if IsCh(s, k, ':') && IsCh(s, k + 1, ':') && HasWord(s, SkipWs(s, k + 2)) {
      assert Segment(s, j, WordEnd(s, SkipWs(s, k + 2)));
    }
  }

  lemma {:induction false} SegmentsExist(s: string, j: nat) returns (q: seq<nat>)
    requires j <= |s|
    ensures q != [] && q[0] == j && (forall x :: 0 <= x < |q| - 1 ==> Segment(s, q[x], q[x + 1])) && NoSegment(s, q[|q| - 1])
    decreases |s| - j
  {
    if n: nat :| Segment(s, j, n) {
      var r := SegmentsExist(s, n);
      q := [j] + r;
      forall x | 0 <= x < |q| - 1
        ensures Segment(s, q[x], q[x + 1])
      {
        if x > 0 { assert q[x] == r[x - 1] && q[x + 1] == r[x]; }
      }
    } else {
      q := [j];
    }
  }

  // ----- the table -----

  predicate IsKeyword(w: string)
  {
    w in {"pub", "default", "unsafe", "async", "auto", "const", "extern", "macro_rules", "static", "type", "use",
          "fn", "mod", "impl", "trait", "enum", "struct", "union"}
  }

  predicate WordAmong(s: string, b: nat, ws: set<string>)
  {
    HasWord(s, b) && s[b..WordEnd(s, b)] in ws
  }

  lemma KnownWord(s: string, b: nat, h: Head, cls: CharClass)
    requires SkipWsIs(s, b) && HasWord(s, b) && WordTurn(s, b) == Known(h)
    ensures Classify(s, b, cls) == h
  {
  }

  lemma BodyTurn(s: string, b: nat, w: string)
    requires HasWord(s, b) && s[b..WordEnd(s, b)] == w && w in {"fn", "mod", "impl", "trait", "enum", "struct", "union"}
    ensures WordTurn(s, b) == Known(Head(Body, WordEnd(s, b)))
  {
    assert w != "pub" && w != "const" && w != "extern" && w != "macro_rules" && !IsQualifier(w) && !IsSemiItem(w);
    assert IsBodyItem(w);
  }

  lemma BodyWord(s: string, b: nat, cls: CharClass)
    requires SkipWsIs(s, b) && WordAmong(s, b, {"fn", "mod", "impl", "trait", "enum", "struct", "union"})
    ensures Classify(s, b, cls) == Head(Body, WordEnd(s, b))
  {
    BodyTurn(s, b, s[b..WordEnd(s, b)]);
    KnownWord(s, b, Head(Body, WordEnd(s, b)), cls);
  }

  predicate SkipWsIs(s: string, b: nat)
  {
    b <= |s| && SkipWs(s, b) == b
  }

  lemma SemiWord(s: string, b: nat, cls: CharClass)
    requires SkipWsIs(s, b) && WordAmong(s, b, {"static", "type", "use"})
    ensures Classify(s, b, cls) == Head(Semi, WordEnd(s, b))
  {
  }

  lemma ConstWord(s: string, b: nat, cls: CharClass)
    requires SkipWsIs(s, b) && WordIs(s, b, "const") && !WordIs(s, SkipWs(s, WordEnd(s, b)), "fn")
    ensures Classify(s, b, cls) == Head(Semi, WordEnd(s, b))
  {
  }

  lemma MacroRulesWord(s: string, b: nat, cls: CharClass)
    requires SkipWsIs(s, b) && WordIs(s, b, "macro_rules")
    ensures Classify(s, b, cls) == Head(Macro, WordEnd(s, b))
  {
  }

  lemma OtherWord(s: string, b: nat, q: seq<nat>, cls: CharClass)
    requires SkipWsIs(s, b) && HasWord(s, b) && !IsKeyword(s[b..WordEnd(s, b)]) && PathRun(s, b, q)
    ensures q[|q| - 1] <= |s|
    ensures var k := SkipWs(s, q[|q| - 1]);
            Classify(s, b, cls) == if IsCh(s, k, '!') then Head(Macro, k + 1) else Head(Comma, b)
  {
    PathRunEnds(s, q);
  }

  lemma SymbolAt(s: string, b: nat, cls: CharClass)
    requires SkipWsIs(s, b) && b < |s| && !HasWord(s, b)
    ensures Classify(s, b, cls)
         == if s[b] in {'{', '(', '[', '&', '|', '<', '\'', '.', '-', '"'} || cls.digit(s[b]) then Head(Comma, b) else NoHead(b)
  {
  }

  /** What stands at `b`, where no further qualifier stands, opens `h`. */
  ghost predicate Opens(s: string, b: nat, h: Head, cls: CharClass)
  {
    if b >= |s| then h == NoHead(b)
    else if !HasWord(s, b) then
      h == if s[b] in {'{', '(', '[', '&', '|', '<', '\'', '.', '-', '"'} || cls.digit(s[b]) then Head(Comma, b) else NoHead(b)
    else
      var e := WordEnd(s, b);
      var j := SkipWs(s, e);
      if WordAmong(s, b, {"fn", "mod", "impl", "trait", "enum", "struct", "union"}) then h == Head(Body, e)
      else if WordAmong(s, b, {"static", "type", "use", "const"}) then h == Head(Semi, e)
      else if WordIs(s, b, "macro_rules") then h == Head(Macro, e)
      else if WordIs(s, b, "pub") then h == NoHead(j)
      else if WordIs(s, b, "extern") then
        h == if WordIs(s, j, "crate") then Head(Semi, WordEnd(s, j)) else if IsCh(s, j, '"') then NoHead(|s|) else Head(Body, j)
      else
        exists q :: PathRun(s, b, q) && q[|q| - 1] <= |s| &&
          var k := SkipWs(s, q[|q| - 1]);
          h == if IsCh(s, k, '!') then Head(Macro, k + 1) else Head(Comma, b)
  }

  /** The classification of every text: past its qualifiers, by the word or character that stands there. */
  lemma ConstructExactly(s: string, i: nat, p: seq<nat>, cls: CharClass)
    requires i <= |s| && QualifierRun(s, i, p) && Unqualified(s, p[|p| - 1])
    ensures Opens(s, p[|p| - 1], Classify(s, i, cls), cls)
  {
    RunClassifies(s, i, p, cls);
    OpensHere(s, p[|p| - 1], cls);
  }

  lemma ConstOpens(s: string, b: nat, cls: CharClass)
    requires SkipWsIs(s, b) && Unqualified(s, b) && WordIs(s, b, "const")
    ensures Classify(s, b, cls) == Head(Semi, WordEnd(s, b))
  {
    assert !Qualifies(s, b, SkipWs(s, WordEnd(s, b)));
    ConstWord(s, b, cls);
  }

  lemma PubOpens(s: string, b: nat, cls: CharClass)
    requires SkipWsIs(s, b) && Unqualified(s, b) && WordIs(s, b, "pub")
    ensures Classify(s, b, cls) == NoHead(SkipWs(s, WordEnd(s, b)))
  {
    var j := SkipWs(s, WordEnd(s, b));
    assert !Qualifies(s, b, j);
    StrictVsLenient(s, j);
    assert MatchStrict(s, j).Some? ==> Qualifies(s, b, MatchStrict(s, j).value);
  }

  lemma {:induction false} QuoteHit(s: string, i: nat)
    requires i <= |s|
    ensures var k := Lexer.FindChar(s, '"', i);
            (k < |s| ==> s[k] == '"') && forall x :: i <= x < k ==> s[x] != '"'
    decreases |s| - i
  {
    if i < |s| && s[i] != '"' { QuoteHit(s, i + 1); }
  }

  lemma NoAbi(s: string, b: nat, j: nat)
    requires Unqualified(s, b) && WordIs(s, b, "extern") && j == SkipWs(s, WordEnd(s, b)) && IsCh(s, j, '"')
    ensures Lexer.FindChar(s, '"', j + 1) == |s|
  {
    QuoteHit(s, j + 1);
    var k := Lexer.FindChar(s, '"', j + 1);
    assert k < |s| ==> Qualifies(s, b, k + 1);
  }

  lemma ExternOpens(s: string, b: nat, cls: CharClass)
    requires SkipWsIs(s, b) && Unqualified(s, b) && WordIs(s, b, "extern")
    ensures var j := SkipWs(s, WordEnd(s, b));
            Classify(s, b, cls)
              == if WordIs(s, j, "crate") then Head(Semi, WordEnd(s, j)) else if IsCh(s, j, '"') then NoHead(|s|) else Head(Body, j)
  {
    var j := SkipWs(s, WordEnd(s, b));
    if IsCh(s, j, '"') {
      NoAbi(s, b, j);
    }
    assert WordTurn(s, b) == ExternTurn(s, WordEnd(s, b));
    KnownWord(s, b, WordTurn(s, b).head, cls);
  }

  lemma OtherOpens(s: string, b: nat, cls: CharClass)
    requires SkipWsIs(s, b) && Unqualified(s, b) && HasWord(s, b)
    requires !WordAmong(s, b, {"fn", "mod", "impl", "trait", "enum", "struct", "union"})
    requires !WordAmong(s, b, {"static", "type", "use", "const", "macro_rules", "pub", "extern"})
    ensures exists q :: PathRun(s, b, q) && q[|q| - 1] <= |s| &&
              var k := SkipWs(s, q[|q| - 1]);
              Classify(s, b, cls) == if IsCh(s, k, '!') then Head(Macro, k + 1) else Head(Comma, b)
  {
    assert !Qualifies(s, b, WordEnd(s, b));
    if IsKeyword(s[b..WordEnd(s, b)]) {
      OtherKeyword(s, b);
      assert false;
    }
    var q := SegmentsExist(s, WordEnd(s, b));
    assert PathRun(s, b, q);
    OtherWord(s, b, q, cls);
  }

  lemma OtherKeyword(s: string, b: nat)
    requires HasWord(s, b) && IsKeyword(s[b..WordEnd(s, b)])
    requires !WordAmong(s, b, {"fn", "mod", "impl", "trait", "enum", "struct", "union"})
    requires !WordAmong(s, b, {"static", "type", "use", "const", "macro_rules", "pub", "extern"})
    ensures WordIs(s, b, "default") || WordIs(s, b, "unsafe") || WordIs(s, b, "async") || WordIs(s, b, "auto")
  {
  }

  lemma OpensHere(s: string, b: nat, cls: CharClass)
    requires SkipWsIs(s, b) && Unqualified(s, b)
    ensures Opens(s, b, Classify(s, b, cls), cls)
  {
    if b < |s| && HasWord(s, b) {
      var e := WordEnd(s, b);
      var j := SkipWs(s, e);
      if WordAmong(s, b, {"fn", "mod", "impl", "trait", "enum", "struct", "union"}) {
        BodyWord(s, b, cls);
      } else if WordAmong(s, b, {"static", "type", "use"}) {
        SemiWord(s, b, cls);
      } else if WordIs(s, b, "const") {
        ConstOpens(s, b, cls);
      } else if WordIs(s, b, "macro_rules") {
        MacroRulesWord(s, b, cls);
      } else if WordIs(s, b, "pub") {
        PubOpens(s, b, cls);
      } else if WordIs(s, b, "extern") {
        ExternOpens(s, b, cls);
      } else {
        OtherOpens(s, b, cls);
      }
    } else if b < |s| {
      SymbolAt(s, b, cls);
    }
  }
}

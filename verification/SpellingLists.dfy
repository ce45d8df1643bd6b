/** Comma lists on which the spelling table and the evaluator differ, in both directions. */
module SpellingLists {

  import opened Options
  import opened Words
  import opened Extent
  import opened CfgPredicate
  import opened CfgTrees
  import SpellingTable

  lemma FrontWord(s: string, w: string)
    requires IsIdent(w) && |w| < |s| && s[..|w|] == w && !IsWordChar(s[|w|])
    ensures HasWord(s, 0) && WordEnd(s, 0) == |w|
  {
    WordOf(s, w, s[|w|..]);
  }

  lemma GatesBehind(s: string, a: string)
    requires Quiet(a, 0, |a|) && s == a + ",test"
    ensures Gates(s)
  {
    TestGates();
    GatesComma(a, "test");
    assert s == a + "," + "test";
  }

  lemma PlainTable(s: string, w: string)
    requires IsIdent(w) && !IsReserved(w) && |w| < |s| && s[..|w|] == w && s[|w|] == ',' && !IsSpace(s[|s| - 1])
    ensures TableVerdict(s) == Some((PlainNonTest, false))
  {
    StripPlain(s);
    FrontWord(s, w);
    NoCallInFront(s, w);
    assert s != "test" by { assert ',' in s; }
  }

  lemma NoCallInFront(s: string, w: string)
    requires IsIdent(w) && !IsReserved(w) && |w| < |s| && s[..|w|] == w && s[|w|] == ','
    ensures !IsCall(s)
  {
    FrontWord(s, w);
    if c :| c in ["all", "any", "not"] && CallOpen(s, c).Some? {
      SpellingTable.CallOpenParts(s, c);
    }
  }

  lemma NotTable(s: string)
    requires |s| > 4 && s[..3] == "not" && s[3] == '(' && s[|s| - 1] != ')' && !IsSpace(s[|s| - 1])
    ensures TableVerdict(s) == Some((NotHead, false))
  {
    assert s[0] == s[..3][0];
    StripPlain(s);
    assert SkipWs(s, 3) == 3;
    assert s != "test";
  }

  lemma LetterQuiet(w: string)
    requires |w| == 1 && IsWordStart(w[0])
    ensures Quiet(w, 0, 1) && Strip(w) == w
  {
    IdentQuiet(w);
    StripPlain(w);
  }

  /** Behind a plain name the table misses the gate. */
  lemma PlainThenTest(s: string)
    requires s == "unix,test"
    ensures TableVerdict(s) == Some((PlainNonTest, false)) && Gates(s)
  {
    IdentQuiet("unix");
    GatesBehind(s, "unix");
    PlainTable(s, "unix");
  }

  /** Behind `not(...)` too. */
  lemma NotThenTest(s: string)
    requires s == "not(a),test"
    ensures TableVerdict(s) == Some((NotHead, false)) && Gates(s)
  {
    NotGroup(s[..6], s[4..5]);
    assert s == s[..6] + ",test";
    GatesBehind(s, s[..6]);
    assert s[..3] == "not";
    NotTable(s);
  }

  lemma NotGroup(e: string, x: string)
    requires e == "not(a)" && x == "a"
    ensures Quiet(e, 0, |e|)
  {
    assert e == "not" + "" + "(" + x + ")";
    GroupQuiet(e, "not", x);
  }

  lemma GroupQuiet(e: string, word: string, x: string)
    requires IsIdent(word) && |x| == 1 && IsWordStart(x[0]) && e == word + "" + "(" + x + ")"
    ensures Quiet(e, 0, |e|) && Strip(e) == e
  {
    LetterQuiet(x);
    CallQuiet(e, word, "", x);
    assert e[0] == word[0];
    StripPlain(e);
  }

  /** Behind `all(...)` it takes an item of a later `not(...)` for one of the first group. */
  lemma AllThenNot(s: string)
    requires s == "all(a),not(b,test)"
    ensures TableVerdict(s) == Some((CompoundAll, true)) && !Gates(s)
  {
    AllThenNotGates(s, s[..6], s[7..]);
    AllThenNotTable(s);
  }

  lemma AllThenNotGates(s: string, a: string, b: string)
    requires s == "all(a),not(b,test)" && a == s[..6] && b == s[7..]
    ensures !Gates(s)
  {
    AllGroup(a, a[4..5]);
    NotGates(b, b[4..10]);
    assert s == a + "," + b;
    NeitherGates(s, a, b);
  }

  lemma NeitherGates(s: string, a: string, b: string)
    requires Quiet(a, 0, |a|) && !ElemGates(a) && !Gates(b) && s == a + "," + b
    ensures !Gates(s)
  {
    GatesComma(a, b);
  }

  lemma AllGroup(e: string, x: string)
    requires e == "all(a)" && x == "a"
    ensures !ElemGates(e) && Quiet(e, 0, |e|)
  {
    assert e == "all" + "" + "(" + x + ")";
    GroupQuiet(e, "all", x);
    LetterGroup(e, x);
  }

  lemma LetterGroup(e: string, x: string)
    requires |x| == 1 && IsWordStart(x[0]) && IsCallOf(e, "all", "", x) && Strip(e) == e
    ensures !ElemGates(e)
  {
    CallGates(e, "all", "", x);
    LetterQuiet(x);
    GatesIffTestOnPath(Name(x), x);
  }

  lemma NotGates(e: string, x: string)
    requires e == "not(b,test)" && x == "b,test"
    ensures !Gates(e)
  {
    assert e == "not" + "" + "(" + x + ")";
    ItemsLeveled(x);
    CallQuiet(e, "not", "", x);
    assert e[0] == 'n' && e[|e| - 1] == ')';
    StripPlain(e);
    GatesOne(e);
    NotNeverGates(e, "", x);
  }

  lemma ItemsLeveled(x: string)
    requires x == "b,test"
    ensures Leveled(x, 0, |x|)
  {
    LetterQuiet(x[..1]);
    IdentQuiet(x[2..]);
    CommaLeveled(x, x[..1], x[2..]);
  }

  lemma AllThenNotTable(s: string)
    requires s == "all(a),not(b,test)"
    ensures TableVerdict(s) == Some((CompoundAll, true))
  {
    StripPlain(s);
    assert s[..3] == "all" && SkipWs(s, 3) == 3;
    assert CallOpen(s, "all") == Some(4);
    var inner := s[4..|s| - 1];
    InnerVerdict(inner);
  }

  lemma InnerVerdict(s: string)
    requires s == "a),not(b,test"
    ensures FlatVerdict(s) == Some(true)
  {
    var parts := SplitTop(s);
    InnerSplit(s);
    assert parts[0] == s[0..8] && parts[1] == s[9..];
    InnerItem(s[0..8]);
    TestItem(s[9..]);
  }

  lemma InnerItem(x: string)
    requires x == "a),not(b"
    ensures !IsCall(Strip(x))
  {
    StripPlain(x);
    assert x[..3] == "a),";
  }

  lemma TestItem(x: string)
    requires x == "test"
    ensures !IsCall(Strip(x)) && BareTest(Strip(x))
  {
    StripPlain(x);
    assert x[..3] == "tes";
    WordOf(x, "test", "");
  }

  lemma InnerSplit(s: string)
    requires s == "a),not(b,test"
    ensures SplitTop(s) == [s[0..8], s[9..]]
  {
    assert CommaSplit(s, 11, 0, 9) == CommaSplit(s, 12, 0, 9) == [s[9..]];
    assert CommaSplit(s, 9, 0, 9) == CommaSplit(s, 10, 0, 9) == [s[9..]];
    assert CommaSplit(s, 8, 0, 0) == [s[0..8], s[9..]];
    assert CommaSplit(s, 6, -1, 0) == CommaSplit(s, 7, 0, 0) == CommaSplit(s, 8, 0, 0);
    assert CommaSplit(s, 4, -1, 0) == CommaSplit(s, 5, -1, 0) == CommaSplit(s, 6, -1, 0);
    assert CommaSplit(s, 2, -1, 0) == CommaSplit(s, 3, -1, 0) == CommaSplit(s, 4, -1, 0);
    assert CommaSplit(s, 0, 0, 0) == CommaSplit(s, 1, 0, 0) == CommaSplit(s, 2, -1, 0);
  }
}

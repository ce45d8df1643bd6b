/** On which predicates the spelling table has a verdict, and which. */
module TableTrees {

  import opened Options
  import opened Extent
  import opened CfgPredicate
  import opened CfgTrees
  import opened SpellingTable

  predicate IsCallNode(p: Pred)
  {
    p.Any? || p.All? || p.Not?
  }

  predicate IsTestLeaf(p: Pred)
  {
    (p.Name? && p.word == "test") || (p.Setting? && p.key == "test")
  }

  predicate SomeOf(ps: Preds, g: Pred -> bool)
  {
    ps.Cons? && (g(ps.head) || SomeOf(ps.tail, g))
  }

  /** The table covers a bare `test`, a leaf with a word of its own, a `not(...)`, and an `all(...)` or `any(...)`
      that holds leaves only. */
  function TreeVerdict(p: Pred): Option<(Spelling, bool)>
  {
    match p
    case Name(w) =>
      if w == "test" then Some((OuterBare, true)) else if w in ["all", "any", "not"] then None else Some((PlainNonTest, false))
    case Setting(k, _) => if k in ["test", "all", "any", "not"] then None else Some((PlainNonTest, false))
    case Not(_) => Some((NotHead, false))
    case All(ps) => if SomeOf(ps, IsCallNode) then None else Some((CompoundAll, SomeOf(ps, IsTestLeaf)))
    case Any(ps) => if SomeOf(ps, IsCallNode) then None else Some((CompoundAny, SomeOf(ps, IsTestLeaf)))
  }

  // ----- leaves -----

  predicate IsLeaf(e: string, w: string, rest: string)
  {
    IsIdent(w) && e == w + rest && (rest == "" || IsValue(rest))
  }

  lemma LeafWord(e: string, w: string, rest: string)
    requires IsLeaf(e, w, rest)
    ensures HasWord(e, 0) && WordEnd(e, 0) == |w| && e[..|w|] == w
  {
    WordOf(e, w, rest);
  }

  lemma LeafNoCall(e: string, w: string, rest: string, c: string)
    requires IsLeaf(e, w, rest) && IsIdent(c)
    ensures CallOpen(e, c).None?
  {
    LeafWord(e, w, rest);
    assert forall x :: |w| <= x < |e| ==> e[x] == rest[x - |w|] && e[x] != '(';
    if CallOpen(e, c).Some? {
      CallOpenParts(e, c);
    }
  }

  lemma LeafPiece(e: string, w: string, rest: string)
    requires IsLeaf(e, w, rest)
    ensures !IsCall(e) && (BareTest(e) <==> w == "test")
  {
    LeafWord(e, w, rest);
    LeafNoCall(e, w, rest, "all");
    LeafNoCall(e, w, rest, "any");
    LeafNoCall(e, w, rest, "not");
  }

  // ----- calls -----

  lemma CallPieceIs(e: string, word: string, gap: string, inner: string)
    requires IsCallOf(e, word, gap, inner) && IsIdent(word)
    ensures HasWord(e, 0) && e[..WordEnd(e, 0)] == word
    ensures CallOpen(e, word) == Some(|word| + |gap| + 1) && e[|word| + |gap| + 1..|e| - 1] == inner && e[|e| - 1] == ')'
  {
    CallParts(e, word, gap, inner);
    var k := |word| + |gap|;
    assert e[k] == '(';
    assert forall x :: |word| <= x < k ==> e[x] == gap[x - |word|];
    SkipBlank(e, |word|, k);
  }

  lemma OtherCall(e: string, word: string, gap: string, inner: string, c: string)
    requires IsCallOf(e, word, gap, inner) && IsIdent(word) && IsIdent(c) && c != word
    ensures CallOpen(e, c).None?
  {
    CallPieceIs(e, word, gap, inner);
    if CallOpen(e, c).Some? {
      CallOpenParts(e, c);
    }
  }

  lemma CallIsPiece(e: string, word: string, gap: string, inner: string)
    requires IsCallOf(e, word, gap, inner) && (word == "all" || word == "any" || word == "not")
    ensures IsCall(e) && !BareTest(e)
  {
    CallPieceIs(e, word, gap, inner);
  }

  // ----- the parts of a list -----

  lemma PieceIs(p: Pred, part: string)
    requires Spells(p, part)
    ensures CallPiece(part) <==> IsCallNode(p)
    ensures TestPiece(part) <==> IsTestLeaf(p)
  {
    var e := Strip(part);
    match p
    case Name(w) =>
      assert e == w + "";
      LeafPiece(e, w, "");
    case Setting(k, v) => LeafPiece(e, k, v);
    case Any(ps) =>
      var gap, inner :| IsCallOf(e, "any", gap, inner) && SpellsList(ps, inner);
      CallIsPiece(e, "any", gap, inner);
    case All(ps) =>
      var gap, inner :| IsCallOf(e, "all", gap, inner) && SpellsList(ps, inner);
      CallIsPiece(e, "all", gap, inner);
    case Not(q) =>
      var gap, inner :| IsCallOf(e, "not", gap, inner) && Spells(q, inner);
      CallIsPiece(e, "not", gap, inner);
  }

  lemma BlankPiece(s: string)
    requires IsBlank(s)
    ensures !CallPiece(s) && !TestPiece(s)
  {
    SkipBlank(s, 0, |s|);
    assert Strip(s) == "";
  }

  lemma {:induction false} ListIs(ps: Preds, s: string)
    requires SpellsList(ps, s)
    ensures Among(SplitTop(s), CallPiece) <==> SomeOf(ps, IsCallNode)
    ensures Among(SplitTop(s), TestPiece) <==> SomeOf(ps, IsTestLeaf)
    decreases ps
  {
    if ps.Nil? {
      BlankQuiet(s);
      SplitOne(s);
      BlankPiece(s);
    } else if ps.tail.Nil? && Spells(ps.head, s) {
      SpellsQuiet(ps.head, s);
      SplitOne(s);
      PieceIs(ps.head, s);
      AmongCons(s, [], CallPiece);
      AmongCons(s, [], TestPiece);
      assert [s] + [] == [s];
    } else {
      var a, b :| s == a + "," + b && Spells(ps.head, a) && SpellsList(ps.tail, b);
      SpellsQuiet(ps.head, a);
      SplitComma(a, b);
      PieceIs(ps.head, a);
      ListIs(ps.tail, b);
      AmongCons(a, SplitTop(b), CallPiece);
      AmongCons(a, SplitTop(b), TestPiece);
    }
  }

  // ----- the whole predicate -----

  lemma LeafTable(s: string, w: string, rest: string)
    requires IsLeaf(Strip(s), w, rest)
    ensures TableVerdict(s) == if w == "test" && rest == "" then Some((OuterBare, true))
                               else if w in ["test", "all", "any", "not"] then None else Some((PlainNonTest, false))
  {
    var e := Strip(s);
    LeafWord(e, w, rest);
    LeafPiece(e, w, rest);
    assert e == "test" ==> |w| == 4 && rest == "" by { TestIsWord(e, w, rest); }
  }

  lemma TestIsWord(e: string, w: string, rest: string)
    requires IsLeaf(e, w, rest)
    ensures e == "test" ==> w == "test" && rest == ""
  {
    assert rest != "" ==> e[|w|] == rest[0] && !IsWordChar(e[|w|]);
    assert forall c :: c in "test" ==> IsWordChar(c);
  }

  lemma GroupTable(s: string, word: string, gap: string, inner: string)
    requires IsCallOf(Strip(s), word, gap, inner) && (word == "all" || word == "any")
    ensures TableVerdict(s) == if FlatVerdict(inner).None? then None
                               else Some((if word == "all" then CompoundAll else CompoundAny, FlatVerdict(inner).value))
  {
    var e := Strip(s);
    CallPieceIs(e, word, gap, inner);
    assert e != "test";
    if word == "any" { OtherCall(e, word, gap, inner, "all"); }
  }

  lemma NotGroupTable(s: string, gap: string, inner: string)
    requires IsCallOf(Strip(s), "not", gap, inner)
    ensures TableVerdict(s) == Some((NotHead, false))
  {
    var e := Strip(s);
    CallPieceIs(e, "not", gap, inner);
    OtherCall(e, "not", gap, inner, "all");
    OtherCall(e, "not", gap, inner, "any");
    assert e != "test";
  }

  /** However a predicate is written, the table answers what its tree says: a verdict on the covered trees and none on
      any other. */
  lemma TableOnTrees(p: Pred, s: string)
    requires Spells(p, s)
    ensures TableVerdict(s) == TreeVerdict(p)
  {
    match p
    case Name(w) =>
      assert Strip(s) == w + "";
      LeafTable(s, w, "");
    case Setting(k, v) => LeafTable(s, k, v);
    case Any(ps) =>
      var gap, inner :| IsCallOf(Strip(s), "any", gap, inner) && SpellsList(ps, inner);
      GroupTable(s, "any", gap, inner);
      FlatIsAmong(inner);
      ListIs(ps, inner);
    case All(ps) =>
      var gap, inner :| IsCallOf(Strip(s), "all", gap, inner) && SpellsList(ps, inner);
      GroupTable(s, "all", gap, inner);
      FlatIsAmong(inner);
      ListIs(ps, inner);
    case Not(q) =>
      var gap, inner :| IsCallOf(Strip(s), "not", gap, inner) && Spells(q, inner);
      NotGroupTable(s, gap, inner);
  }
}

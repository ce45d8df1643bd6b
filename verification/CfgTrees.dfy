/** The evaluator against predicate trees. */
module CfgTrees {

  import opened Words
  import opened Extent
  import opened Delimiters
  import opened CfgPredicate

  /** A cfg predicate.  `Setting` is a key with its value text, e.g. `feature = "..."`. */
  datatype Pred = Name(word: string) | Setting(key: string, value: string) | Any(ps: Preds) | All(ps: Preds) | Not(p: Pred)

  datatype Preds = Nil | Cons(head: Pred, tail: Preds)

  /** A leaf headed `test` is reached through `any`/`all` nodes only. */
  predicate TestOnPath(p: Pred)
  {
    match p
    case Name(w) => w == "test"
    case Setting(k, _) => k == "test"
    case Any(ps) => TestInSome(ps)
    case All(ps) => TestInSome(ps)
    case Not(_) => false
  }

  predicate TestInSome(ps: Preds)
  {
    ps.Cons? && (TestOnPath(ps.head) || TestInSome(ps.tail))
  }

  // ----- spellings: any whitespace, optional trailing comma -----

  predicate IsIdent(w: string)
  {
    w != "" && IsWordStart(w[0]) && forall i :: 0 <= i < |w| ==> IsWordChar(w[i])
  }

  predicate IsBlank(g: string)
  {
    forall i :: 0 <= i < |g| ==> IsSpace(g[i])
  }

  predicate IsNeutral(c: char)
  {
    !IsOpen(c) && !IsClose(c) && c != ','
  }

  /** Value text: no identifier character first, no brackets or commas (string bodies are blank). */
  predicate IsValue(v: string)
  {
    v != "" && !IsWordChar(v[0]) && !IsSpace(v[|v| - 1]) && forall i :: 0 <= i < |v| ==> IsNeutral(v[i])
  }

  ghost predicate IsCallOf(e: string, word: string, gap: string, inner: string)
  {
    IsBlank(gap) && e == word + gap + "(" + inner + ")"
  }

  /** `s` is a way to write `p`. */
  ghost predicate Spells(p: Pred, s: string)
    decreases p
  {
    match p
    case Name(w) => IsIdent(w) && Strip(s) == w
    case Setting(k, v) => IsIdent(k) && IsValue(v) && Strip(s) == k + v
    case Any(ps) => exists gap, inner :: IsCallOf(Strip(s), "any", gap, inner) && SpellsList(ps, inner)
    case All(ps) => exists gap, inner :: IsCallOf(Strip(s), "all", gap, inner) && SpellsList(ps, inner)
    case Not(q) => exists gap, inner :: IsCallOf(Strip(s), "not", gap, inner) && Spells(q, inner)
  }

  ghost predicate SpellsList(ps: Preds, s: string)
    decreases ps
  {
    match ps
    case Nil => IsBlank(s)
    case Cons(p, tail) =>
      || (tail.Nil? && Spells(p, s))
      || exists a, b :: s == a + "," + b && Spells(p, a) && SpellsList(tail, b)
  }

  // ----- bracket levels -----

  /** Net bracket depth of t[i..k), whatever the bracket kinds. */
  ghost function Level(t: string, i: nat, k: nat): int
    requires i <= k <= |t|
    decreases k
  {
    if i == k then 0
    else Level(t, i, k - 1) + if IsOpen(t[k - 1]) then 1 else if IsClose(t[k - 1]) then -1 else 0
  }

  /** t[i..j) closes what it opens and never goes below its own level. */
  ghost predicate Leveled(t: string, i: nat, j: nat)
  {
    i <= j <= |t| && Level(t, i, j) == 0 && forall k :: i <= k <= j ==> Level(t, i, k) >= 0
  }

  /** Moreover no comma is at its own level. */
  ghost predicate Quiet(t: string, i: nat, j: nat)
  {
    Leveled(t, i, j) && forall k :: i <= k < j && t[k] == ',' ==> Level(t, i, k) > 0
  }

  lemma {:induction false} LevelSplit(t: string, i: nat, m: nat, k: nat)
    requires i <= m <= k <= |t|
    ensures Level(t, i, k) == Level(t, i, m) + Level(t, m, k)
    decreases k
  {
    if m < k { LevelSplit(t, i, m, k - 1); }
  }

  lemma {:induction false} LevelShift(s: string, t: string, at: nat, i: nat, k: nat)
    requires i <= k <= |s| && at + |s| <= |t| && t[at..at + |s|] == s
    ensures Level(t, at + i, at + k) == Level(s, i, k)
    decreases k
  {
    if i < k {
      LevelShift(s, t, at, i, k - 1);
      assert t[at + k - 1] == t[at..at + |s|][k - 1];
    }
  }

  lemma LeveledShift(s: string, t: string, at: nat)
    requires Leveled(s, 0, |s|) && at + |s| <= |t| && t[at..at + |s|] == s
    ensures Leveled(t, at, at + |s|)
    ensures Quiet(s, 0, |s|) ==> Quiet(t, at, at + |s|)
  {
    forall k | at <= k <= at + |s|
      ensures Level(t, at, k) == Level(s, 0, k - at)
    {
      LevelShift(s, t, at, 0, k - at);
    }
    forall k | at <= k < at + |s|
      ensures t[k] == s[k - at]
    {
      assert t[k] == t[at..at + |s|][k - at];
    }
  }

  lemma {:induction false} NeutralLevel(t: string, i: nat, k: nat)
    requires i <= k <= |t| && forall x :: i <= x < k ==> IsNeutral(t[x])
    ensures Level(t, i, k) == 0
    decreases k
  {
    if i < k { NeutralLevel(t, i, k - 1); }
  }

  lemma NeutralQuiet(t: string, i: nat, j: nat)
    requires i <= j <= |t| && forall x :: i <= x < j ==> IsNeutral(t[x])
    ensures Quiet(t, i, j)
  {
    forall k | i <= k <= j
      ensures Level(t, i, k) == 0
    {
      NeutralLevel(t, i, k);
    }
  }

  lemma QuietConcat(t: string, i: nat, m: nat, j: nat)
    requires Quiet(t, i, m) && Quiet(t, m, j)
    ensures Quiet(t, i, j)
  {
    forall k | i <= k <= j
      ensures m <= k ==> Level(t, i, k) == Level(t, m, k)
    {
      if m <= k { LevelSplit(t, i, m, k); }
    }
  }

  lemma LeveledConcat(t: string, i: nat, m: nat, j: nat)
    requires Leveled(t, i, m) && Leveled(t, m, j)
    ensures Leveled(t, i, j)
  {
    forall k | i <= k <= j
      ensures m <= k ==> Level(t, i, k) == Level(t, m, k)
    {
      if m <= k { LevelSplit(t, i, m, k); }
    }
  }

  /** A parenthesised leveled text is quiet. */
  lemma ParensQuiet(t: string, i: nat, j: nat)
    requires i + 2 <= j <= |t| && t[i] == '(' && t[j - 1] == ')' && Leveled(t, i + 1, j - 1)
    ensures Quiet(t, i, j)
  {
    assert Level(t, i, i + 1) == 1 by { assert Level(t, i, i) == 0; }
    forall k | i + 1 <= k <= j - 1
      ensures Level(t, i, k) == 1 + Level(t, i + 1, k)
    {
      LevelSplit(t, i, i + 1, k);
    }
  }

  // ----- splitting -----

  lemma {:induction false} SplitRuns(t: string, i: nat, j: nat, k: nat, start: nat)
    requires Quiet(t, i, j) && start <= i <= k <= j
    ensures CommaSplit(t, i, 0, start) == CommaSplit(t, k, Level(t, i, k), start)
    decreases k
  {
    if i < k {
      SplitRuns(t, i, j, k - 1, start);
      SplitNext(t, i, k - 1, start, CommaSplit(t, i, 0, start));
    }
  }

  lemma SplitNext(t: string, i: nat, k: nat, start: nat, parts: seq<string>)
    requires i <= k && start <= k < |t| && !(t[k] == ',' && Level(t, i, k) == 0)
    requires parts == CommaSplit(t, k, Level(t, i, k), start)
    ensures parts == CommaSplit(t, k + 1, Level(t, i, k + 1), start)
  {
  }

  lemma SplitSkips(t: string, i: nat, j: nat, start: nat)
    requires Quiet(t, i, j) && start <= i
    ensures CommaSplit(t, i, 0, start) == CommaSplit(t, j, 0, start)
  {
    SplitRuns(t, i, j, j, start);
  }

  lemma {:induction false} SplitShift(pre: string, b: string, i: nat, depth: int, start: nat)
    requires start <= i <= |b|
    ensures CommaSplit(pre + b, |pre| + i, depth, |pre| + start) == CommaSplit(b, i, depth, start)
    decreases |b| - i
  {
    var t := pre + b;
    if i == |b| {
      assert t[|pre| + start..] == b[start..];
    } else {
      assert t[|pre| + i] == b[i];
      SplitShift(pre, b, i + 1, depth + 1, start);
      SplitShift(pre, b, i + 1, depth - 1, start);
      SplitShift(pre, b, i + 1, depth, start);
      SplitShift(pre, b, i + 1, depth, i + 1);
      assert t[|pre| + start..|pre| + i] == b[start..i];
    }
  }

  lemma SplitOne(s: string)
    requires Quiet(s, 0, |s|)
    ensures SplitTop(s) == [s]
  {
    SplitSkips(s, 0, |s|, 0);
    assert s[0..] == s;
  }

  lemma SplitComma(a: string, b: string)
    requires Quiet(a, 0, |a|)
    ensures SplitTop(a + "," + b) == [a] + SplitTop(b)
  {
    var t, pre := a + "," + b, a + ",";
    assert t[0..0 + |a|] == a;
    LeveledShift(a, t, 0);
    SplitSkips(t, 0, |a|, 0);
    assert t[|a|] == ',' && t[0..|a|] == a;
    SplitShift(pre, b, 0, 0, 0);
  }

  lemma GatesOne(s: string)
    requires Quiet(s, 0, |s|)
    ensures Gates(s) <==> ElemGates(s)
  {
    SplitOne(s);
    assert [s][0] == s;
  }

  lemma GatesComma(a: string, b: string)
    requires Quiet(a, 0, |a|)
    ensures Gates(a + "," + b) <==> ElemGates(a) || Gates(b)
  {
    SplitComma(a, b);
    var parts, rest := SplitTop(a + "," + b), SplitTop(b);
    assert parts[0] == a;
    if i :| 0 <= i < |rest| && ElemGates(rest[i]) {
      assert parts[i + 1] == rest[i];
    }
    if i :| 0 <= i < |parts| && ElemGates(parts[i]) {
      if i > 0 { assert parts[i] == rest[i - 1]; }
    }
  }

  // ----- stripping -----

  lemma {:induction false} StripRightParts(s: string) returns (trail: string)
    ensures s == StripRight(s) + trail && IsBlank(trail)
  {
    if s != "" && IsSpace(s[|s| - 1]) {
      var t := StripRightParts(s[..|s| - 1]);
      trail := t + [s[|s| - 1]];
      assert s == s[..|s| - 1] + [s[|s| - 1]];
    } else {
      trail := "";
    }
  }

  lemma StripParts(s: string) returns (lead: string, trail: string)
    ensures s == lead + Strip(s) + trail && IsBlank(lead) && IsBlank(trail)
  {
    var k := SkipWs(s, 0);
    lead := s[..k];
    trail := StripRightParts(s[k..]);
    assert s == s[..k] + s[k..];
  }

  lemma BlankQuiet(g: string)
    requires IsBlank(g)
    ensures Quiet(g, 0, |g|)
  {
    NeutralQuiet(g, 0, |g|);
  }

  /** Surrounding whitespace does not disturb a quiet text. */
  lemma PaddedQuiet(s: string)
    requires Quiet(Strip(s), 0, |Strip(s)|)
    ensures Quiet(s, 0, |s|)
  {
    var lead, trail := StripParts(s);
    BlankQuiet(lead);
    BlankQuiet(trail);
    QuietAppend(lead, Strip(s));
    QuietAppend(lead + Strip(s), trail);
  }

  lemma QuietPrefix(a: string, b: string)
    requires Quiet(a, 0, |a|)
    ensures Quiet(a + b, 0, |a|)
  {
    assert (a + b)[0..0 + |a|] == a;
    LeveledShift(a, a + b, 0);
  }

  lemma QuietSuffix(a: string, b: string)
    requires Quiet(b, 0, |b|)
    ensures Quiet(a + b, |a|, |a + b|)
  {
    assert (a + b)[|a|..|a| + |b|] == b;
    LeveledShift(b, a + b, |a|);
  }

  lemma QuietAppend(a: string, b: string)
    requires Quiet(a, 0, |a|) && Quiet(b, 0, |b|)
    ensures Quiet(a + b, 0, |a + b|)
  {
    QuietPrefix(a, b);
    QuietSuffix(a, b);
    QuietConcat(a + b, 0, |a|, |a + b|);
  }

  // ----- spellings are quiet -----

  lemma IdentQuiet(w: string)
    requires forall i :: 0 <= i < |w| ==> IsWordChar(w[i])
    ensures Quiet(w, 0, |w|)
  {
    NeutralQuiet(w, 0, |w|);
  }

  lemma CallQuiet(e: string, word: string, gap: string, inner: string)
    requires IsCallOf(e, word, gap, inner) && IsIdent(word) && Leveled(inner, 0, |inner|)
    ensures Quiet(e, 0, |e|)
  {
    var p := |word| + |gap|;
    assert e[0..p] == word + gap;
    forall x | 0 <= x < p
      ensures IsNeutral(e[x])
    {
      assert e[x] == (word + gap)[x];
    }
    NeutralQuiet(e, 0, p);
    assert e[p] == '(' && e[|e| - 1] == ')' && e[p + 1..p + 1 + |inner|] == inner;
    LeveledShift(inner, e, p + 1);
    ParensQuiet(e, p, |e|);
    QuietConcat(e, 0, p, |e|);
  }

  lemma SpellsQuiet(p: Pred, s: string)
    requires Spells(p, s)
    ensures Quiet(s, 0, |s|)
    decreases p, 1
  {
    StrippedQuiet(p, s, Strip(s));
    PaddedQuiet(s);
  }

  lemma {:induction false} StrippedQuiet(p: Pred, s: string, e: string)
    requires Spells(p, s) && e == Strip(s)
    ensures Quiet(e, 0, |e|)
    decreases p, 0
  {
    match p {
    case Name(w) => IdentQuiet(w);
    case Setting(k, v) => NeutralQuiet(k + v, 0, |k + v|);
    case Any(ps) =>
      var gap, inner :| IsCallOf(e, "any", gap, inner) && SpellsList(ps, inner);
      SpellsListLeveled(ps, inner);
      CallQuiet(e, "any", gap, inner);
    case All(ps) =>
      var gap, inner :| IsCallOf(e, "all", gap, inner) && SpellsList(ps, inner);
      SpellsListLeveled(ps, inner);
      CallQuiet(e, "all", gap, inner);
    case Not(q) =>
      var gap, inner :| IsCallOf(e, "not", gap, inner) && Spells(q, inner);
      SpellsQuiet(q, inner);
      CallQuiet(e, "not", gap, inner);
    }
  }

  lemma {:induction false} SpellsListLeveled(ps: Preds, s: string)
    requires SpellsList(ps, s)
    ensures Leveled(s, 0, |s|)
    decreases ps
  {
    if ps.Nil? {
      BlankQuiet(s);
    } else if ps.tail.Nil? && Spells(ps.head, s) {
      SpellsQuiet(ps.head, s);
    } else {
      var a, b :| s == a + "," + b && Spells(ps.head, a) && SpellsList(ps.tail, b);
      SpellsQuiet(ps.head, a);
      SpellsListLeveled(ps.tail, b);
      CommaLeveled(s, a, b);
    }
  }

  lemma CommaLeveled(s: string, a: string, b: string)
    requires s == a + "," + b && Leveled(a, 0, |a|) && Leveled(b, 0, |b|)
    ensures Leveled(s, 0, |s|)
  {
    assert s[0..|a|] == a && s[|a|] == ',' && s[|a| + 1..|s|] == b;
    LeveledShift(a, s, 0);
    LeveledShift(b, s, |a| + 1);
    assert Level(s, |a|, |a| + 1) == 0 by { assert Level(s, |a|, |a|) == 0; }
    assert Leveled(s, |a|, |a| + 1);
    LeveledConcat(s, 0, |a|, |a| + 1);
    LeveledConcat(s, 0, |a| + 1, |s|);
  }

  // ----- the evaluator on spellings -----

  lemma {:induction false} WordTailIs(e: string, i: nat, k: nat)
    requires i <= k <= |e| && (forall x :: i <= x < k ==> IsWordChar(e[x])) && (k == |e| || !IsWordChar(e[k]))
    ensures WordTail(e, i) == k
    decreases k - i
  {
    if i < k { WordTailIs(e, i + 1, k); }
  }

  lemma WordOf(e: string, w: string, rest: string)
    requires IsIdent(w) && e == w + rest && (rest == "" || !IsWordChar(rest[0]))
    ensures HasWord(e, 0) && WordEnd(e, 0) == |w| && e[..|w|] == w && e[|w|..] == rest
  {
    forall x | 0 <= x < |w|
      ensures e[x] == w[x]
    {
    }
    WordTailIs(e, 1, |w|);
  }

  lemma {:induction false} SkipBlank(s: string, i: nat, k: nat)
    requires i <= k <= |s| && (forall x :: i <= x < k ==> IsSpace(s[x])) && (k == |s| || !IsSpace(s[k]))
    ensures SkipWs(s, i) == k
    decreases k - i
  {
    if i < k { SkipBlank(s, i + 1, k); }
  }

  lemma StripLeftGap(gap: string, rest: string)
    requires IsBlank(gap) && rest != "" && !IsSpace(rest[0])
    ensures StripLeft(gap + rest) == rest
  {
    SkipBlank(gap + rest, 0, |gap|);
    assert (gap + rest)[|gap|..] == rest;
  }

  lemma CallParts(e: string, word: string, gap: string, inner: string)
    requires IsCallOf(e, word, gap, inner) && IsIdent(word)
    ensures HasWord(e, 0) && WordEnd(e, 0) == |word| && e[..|word|] == word
    ensures AfterWord(e) == "(" + inner + ")"
  {
    var rest := gap + ("(" + inner + ")");
    assert e == word + rest;
    assert rest[0] == if gap == "" then '(' else gap[0];
    WordOf(e, word, rest);
    StripLeftGap(gap, "(" + inner + ")");
  }

  lemma CallGates(s: string, word: string, gap: string, inner: string)
    requires IsCallOf(Strip(s), word, gap, inner) && (word == "any" || word == "all")
    ensures ElemGates(s) <==> Gates(inner)
  {
    var e := Strip(s);
    CallParts(e, word, gap, inner);
    var rest := AfterWord(e);
    assert rest[1..|rest| - 1] == inner;
  }

  lemma NotNeverGates(s: string, gap: string, inner: string)
    requires IsCallOf(Strip(s), "not", gap, inner)
    ensures !ElemGates(s)
  {
    CallParts(Strip(s), "not", gap, inner);
  }

  lemma LeafGates(s: string, w: string, rest: string)
    requires IsIdent(w) && Strip(s) == w + rest && (rest == "" || (!IsWordChar(rest[0]) && IsValue(rest)))
    ensures ElemGates(s) <==> w == "test"
  {
    var e := Strip(s);
    WordOf(e, w, rest);
    if w == "any" || w == "all" {
      var after := AfterWord(e);
      assert e[WordEnd(e, 0)..] == rest;
      ValueNotParens(rest);
    }
  }

  lemma ValueNotParens(rest: string)
    requires rest == "" || IsValue(rest)
    ensures !InParens(StripLeft(rest))
  {
    var after := StripLeft(rest);
    if |after| > 0 {
      assert after[0] == rest[SkipWs(rest, 0)];
    }
  }

  lemma {:induction false} ElemMatchesTree(p: Pred, s: string)
    requires Spells(p, s)
    ensures ElemGates(s) <==> TestOnPath(p)
    decreases p
  {
    match p
    case Name(w) =>
      assert w + "" == w;
      LeafGates(s, w, "");
    case Setting(k, v) => LeafGates(s, k, v);
    case Any(ps) =>
      var gap, inner :| IsCallOf(Strip(s), "any", gap, inner) && SpellsList(ps, inner);
      CallGates(s, "any", gap, inner);
      ListMatchesTrees(ps, inner);
    case All(ps) =>
      var gap, inner :| IsCallOf(Strip(s), "all", gap, inner) && SpellsList(ps, inner);
      CallGates(s, "all", gap, inner);
      ListMatchesTrees(ps, inner);
    case Not(q) =>
      var gap, inner :| IsCallOf(Strip(s), "not", gap, inner) && Spells(q, inner);
      NotNeverGates(s, gap, inner);
  }

  lemma BlankNeverGates(s: string)
    requires IsBlank(s)
    ensures !ElemGates(s)
  {
    SkipBlank(s, 0, |s|);
    assert StripLeft(s) == "";
  }

  lemma {:induction false} ListMatchesTrees(ps: Preds, s: string)
    requires SpellsList(ps, s)
    ensures Gates(s) <==> TestInSome(ps)
    decreases ps
  {
    if ps.Nil? {
      BlankQuiet(s);
      GatesOne(s);
      BlankNeverGates(s);
    } else if ps.tail.Nil? && Spells(ps.head, s) {
      SpellsQuiet(ps.head, s);
      GatesOne(s);
      ElemMatchesTree(ps.head, s);
    } else {
      var a, b :| s == a + "," + b && Spells(ps.head, a) && SpellsList(ps.tail, b);
      SpellsQuiet(ps.head, a);
      GatesComma(a, b);
      ElemMatchesTree(ps.head, a);
      ListMatchesTrees(ps.tail, b);
    }
  }

  /** However a predicate is written, the evaluator says it gates test code exactly if a leaf headed
      `test` lies under `any` and `all` nodes only. */
  lemma GatesIffTestOnPath(p: Pred, s: string)
    requires Spells(p, s)
    ensures Gates(s) <==> TestOnPath(p)
  {
    SpellsQuiet(p, s);
    GatesOne(s);
    ElemMatchesTree(p, s);
  }

  lemma StripPlain(s: string)
    requires s != "" && !IsSpace(s[0]) && !IsSpace(s[|s| - 1])
    ensures Strip(s) == s
  {
    assert SkipWs(s, 0) == 0 && s[0..] == s;
  }

  lemma TestGates()
    ensures Gates("test")
  {
    StripPlain("test");
    GatesIffTestOnPath(Name("test"), "test");
  }
}

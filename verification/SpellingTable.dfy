/** The flat spelling table against the evaluator: exactly when the two give one verdict. */
module SpellingTable {

  import opened Options
  import opened Words
  import opened Extent
  import opened Delimiters
  import opened CfgPredicate
  import opened CfgTrees

  // ----- pieces of a text, read where they start -----

  /** A piece may end at `b`: at the end, a comma or a closing parenthesis. */
  predicate EndsPiece(s: string, b: nat)
  {
    b <= |s| && (b == |s| || s[b] == ',' || s[b] == ')')
  }

  /** A stripped piece starts at its first solid character. */
  lemma PieceStrip(s: string, a: nat, b: nat) returns (q: nat)
    requires a <= b && EndsPiece(s, b)
    ensures SkipWs(s, a) <= q <= b && Strip(s[a..b]) == s[SkipWs(s, a)..q] && forall k :: q <= k < b ==> IsSpace(s[k])
  {
    var p := SkipWs(s, a);
    assert p <= b;
    SliceLeft(s, a, p, b);
    var trail := StripRightParts(s[p..b]);
    var kept := StripRight(s[p..b]);
    q := p + |kept|;
    SliceOfParts(s, p, b, kept, trail);
  }

  lemma SliceLeft(s: string, a: nat, p: nat, b: nat)
    requires a <= p <= b <= |s| && (forall k :: a <= k < p ==> IsSpace(s[k])) && (p < b ==> !IsSpace(s[p]))
    ensures StripLeft(s[a..b]) == s[p..b]
  {
    var x := s[a..b];
    SkipBlank(x, 0, p - a);
    SliceSlice(s, a, b, p - a, b - a);
    assert x[p - a..] == x[p - a..b - a];
  }

  lemma SliceOfParts(s: string, p: nat, b: nat, kept: string, trail: string)
    requires p <= b <= |s| && s[p..b] == kept + trail && IsBlank(trail)
    ensures s[p..p + |kept|] == kept && forall k :: p + |kept| <= k < b ==> IsSpace(s[k])
  {
    var rest := s[p..b];
    assert s[p..p + |kept|] == rest[..|kept|];
    forall k | p + |kept| <= k < b
      ensures IsSpace(s[k])
    {
      assert s[k] == rest[k - p] == trail[k - p - |kept|];
    }
  }

  /** The first word of a piece is read off the text. */
  lemma PieceWord(s: string, a: nat, b: nat)
    requires a <= b && EndsPiece(s, b)
    ensures var e, p := Strip(s[a..b]), SkipWs(s, a);
            && (HasWord(e, 0) <==> HasWord(s, p))
            && (HasWord(e, 0) ==> e[..WordEnd(e, 0)] == s[p..WordEnd(s, p)])
  {
    var q := PieceStrip(s, a, b);
    SliceWord(s, SkipWs(s, a), q, b);
  }

  lemma SliceWord(s: string, p: nat, q: nat, b: nat)
    requires p <= q <= b && EndsPiece(s, b) && forall k :: q <= k < b ==> IsSpace(s[k])
    ensures var e := s[p..q];
            && (HasWord(e, 0) <==> HasWord(s, p))
            && (HasWord(e, 0) ==> e[..WordEnd(e, 0)] == s[p..WordEnd(s, p)])
  {
    var e := s[p..q];
    if HasWord(s, p) {
      var k := WordEnd(s, p);
      WordTailStops(s, p + 1);
      assert p < q;
      assert q < |s| ==> !IsWordChar(s[q]);
      assert k <= q;
      WordTailIs(e, 1, k - p);
      assert e[..k - p] == s[p..k];
    }
  }

  lemma {:induction false} WordTailStops(s: string, i: nat)
    requires i <= |s|
    ensures WordTail(s, i) < |s| ==> !IsWordChar(s[WordTail(s, i)])
    decreases |s| - i
  {
    if i < |s| && IsWordChar(s[i]) { WordTailStops(s, i + 1); }
  }

  /** `word`, blanks and a parenthesis at `p`. */
  predicate CallAt(s: string, p: nat, word: string)
  {
    p + |word| <= |s| && s[p..p + |word|] == word && IsCh(s, SkipWs(s, p + |word|), '(')
  }

  /** Past the parenthesis of a call at `p`, counted from there. */
  function CallFront(s: string, p: nat, word: string): Option<nat>
  {
    if CallAt(s, p, word) then Some(SkipWs(s, p + |word|) + 1 - p) else None
  }

  lemma PieceCall(s: string, a: nat, b: nat, word: string)
    requires a <= b && EndsPiece(s, b) && IsIdent(word)
    ensures CallOpen(Strip(s[a..b]), word) == CallFront(s, SkipWs(s, a), word)
  {
    var q := PieceStrip(s, a, b);
    SliceCall(s, SkipWs(s, a), q, b, word);
  }

  lemma SliceCall(s: string, p: nat, q: nat, b: nat, word: string)
    requires p <= q <= b && EndsPiece(s, b) && IsIdent(word) && forall k :: q <= k < b ==> IsSpace(s[k])
    ensures CallOpen(s[p..q], word) == CallFront(s, p, word)
  {
    if CallAt(s, p, word) {
      CallIntoSlice(s, p, q, b, word);
    } else if CallOpen(s[p..q], word).Some? {
      CallOutOfSlice(s, p, q, word);
    }
  }

  lemma CallIntoSlice(s: string, p: nat, q: nat, b: nat, word: string)
    requires p <= q <= b && EndsPiece(s, b) && IsIdent(word) && forall k :: q <= k < b ==> IsSpace(s[k])
    requires CallAt(s, p, word)
    ensures CallOpen(s[p..q], word) == Some(SkipWs(s, p + |word|) + 1 - p)
  {
    CharsOfWord(s, p, word);
    assert q < |s| ==> !IsWordChar(s[q]);
    var k := SkipWs(s, p + |word|);
    assert p + |word| <= q && k < q;
    CallWithinSlice(s, p, q, word, k);
  }

  lemma CallWithinSlice(s: string, p: nat, q: nat, word: string, k: nat)
    requires p + |word| <= k < q <= |s| && s[p..p + |word|] == word && s[k] == '('
    requires forall x :: p + |word| <= x < k ==> IsSpace(s[x])
    ensures CallOpen(s[p..q], word) == Some(k + 1 - p)
  {
    SliceSlice(s, p, q, 0, |word|);
    assert s[p..q][k - p] == '(';
    SkipBlank(s[p..q], |word|, k - p);
  }

  lemma CallOutOfSlice(s: string, p: nat, q: nat, word: string)
    requires p <= q <= |s| && CallOpen(s[p..q], word).Some?
    ensures CallAt(s, p, word)
  {
    var k := SkipWs(s[p..q], |word|);
    SliceSlice(s, p, q, 0, |word|);
    SkipBlank(s, p + |word|, p + k);
  }

  lemma CharsOfWord(s: string, p: nat, word: string)
    requires IsIdent(word) && p + |word| <= |s| && s[p..p + |word|] == word
    ensures forall k :: p <= k < p + |word| ==> IsWordChar(s[k])
  {
    forall k | p <= k < p + |word|
      ensures IsWordChar(s[k])
    {
      assert s[k] == s[p..p + |word|][k - p];
    }
  }

  lemma SliceSlice(s: string, lo: nat, hi: nat, a: nat, b: nat)
    requires lo <= hi <= |s| && a <= b <= hi - lo
    ensures s[lo..hi][a..b] == s[lo + a..lo + b]
  {
    var x, y := s[lo..hi][a..b], s[lo + a..lo + b];
    assert forall k :: 0 <= k < |x| ==> x[k] == y[k];
  }

  // ----- items of a list, by where they start -----

  ghost predicate AfterComma(x: string, i: nat, q: nat -> bool)
    requires i <= |x|
  {
    exists a: nat :: i < a <= |x| && x[a - 1] == ',' && Level(x, 0, a - 1) == 0 && q(a)
  }

  ghost predicate Among(parts: seq<string>, p: string -> bool)
  {
    exists k :: 0 <= k < |parts| && p(parts[k])
  }

  /** `p` of a piece is `q` of its start. */
  ghost predicate ByStart(x: string, p: string -> bool, q: nat -> bool)
  {
    forall a: nat, b: nat {:trigger x[a..b]} :: a <= b <= |x| && (b == |x| || x[b] == ',') ==> p(x[a..b]) == q(a)
  }

  lemma AmongCons(x: string, rest: seq<string>, p: string -> bool)
    ensures Among([x] + rest, p) <==> p(x) || Among(rest, p)
  {
    var all := [x] + rest;
    assert all[0] == x;
    if k :| 0 <= k < |rest| && p(rest[k]) { assert all[k + 1] == rest[k]; }
    if k :| 0 <= k < |all| && p(all[k]) && k > 0 { assert all[k] == rest[k - 1]; }
  }

  lemma AfterCommaNext(x: string, i: nat, q: nat -> bool)
    requires i < |x|
    ensures AfterComma(x, i, q) <==> AfterComma(x, i + 1, q) || (x[i] == ',' && Level(x, 0, i) == 0 && q(i + 1))
  {
  }

  lemma {:induction false} ItemsBy(x: string, i: nat, start: nat, p: string -> bool, q: nat -> bool)
    requires start <= i <= |x| && ByStart(x, p, q)
    ensures Among(CommaSplit(x, i, Level(x, 0, i), start), p) <==> q(start) || AfterComma(x, i, q)
    decreases |x| - i
  {
    if i == |x| {
      assert x[start..] == x[start..i];
      AmongCons(x[start..i], [], p);
      assert [x[start..i]] + [] == [x[start..i]];
    } else {
      AfterCommaNext(x, i, q);
      if x[i] == ',' && Level(x, 0, i) == 0 {
        AmongCons(x[start..i], CommaSplit(x, i + 1, 0, i + 1), p);
        ItemsBy(x, i + 1, i + 1, p, q);
      } else {
        ItemsBy(x, i + 1, start, p, q);
      }
    }
  }

  // ----- the inside of a call -----

  predicate TestAt(s: string, a: nat)
  {
    a <= |s| && WordIs(s, SkipWs(s, a), "test")
  }

  predicate AnyCallAt(s: string, a: nat)
  {
    a <= |s| && var p := SkipWs(s, a); CallAt(s, p, "all") || CallAt(s, p, "any") || CallAt(s, p, "not")
  }

  predicate TestPiece(e: string)
  {
    BareTest(Strip(e))
  }

  predicate CallPiece(e: string)
  {
    IsCall(Strip(e))
  }

  /** An item starts at `a`: at `lo`, just past an opening parenthesis, or after a comma at that depth. */
  ghost predicate ItemStart(s: string, lo: nat, a: nat)
  {
    a <= |s| && (a == lo || (lo < a && s[a - 1] == ',' && Level(s, lo, a - 1) == 0))
  }

  /** An item whose start satisfies `q` starts within [from, to]. */
  ghost predicate ItemWithin(s: string, lo: nat, from: nat, to: nat, q: nat -> bool)
  {
    exists a: nat {:trigger ItemStart(s, lo, a)} :: from <= a <= to && ItemStart(s, lo, a) && q(a)
  }

  ghost predicate TestWithin(s: string, lo: nat, from: nat, to: nat)
  {
    ItemWithin(s, lo, from, to, (a: nat) => TestAt(s, a))
  }

  /** The items of s[lo..hi) are its comma pieces. */
  lemma ItemsOfSlice(s: string, lo: nat, hi: nat, p: string -> bool, q: nat -> bool)
    requires lo <= hi <= |s| && ByStart(s[lo..hi], p, (a: nat) => q(lo + a))
    ensures Among(SplitTop(s[lo..hi]), p) <==> ItemWithin(s, lo, lo, hi, q)
  {
    var x := s[lo..hi];
    var q' := (a: nat) => q(lo + a);
    ItemsBy(x, 0, 0, p, q');
    SliceItems(s, lo, hi, q);
  }

  lemma SliceItems(s: string, lo: nat, hi: nat, q: nat -> bool)
    requires lo <= hi <= |s|
    ensures q(lo) || AfterComma(s[lo..hi], 0, (a: nat) => q(lo + a)) <==> ItemWithin(s, lo, lo, hi, q)
  {
    var x := s[lo..hi];
    var q' := (a: nat) => q(lo + a);
    assert ItemStart(s, lo, lo);
    if AfterComma(x, 0, q') {
      var a: nat :| 0 < a <= |x| && x[a - 1] == ',' && Level(x, 0, a - 1) == 0 && q'(a);
      SliceStart(s, lo, hi, lo + a);
      assert q(lo + a);
    }
    if ItemWithin(s, lo, lo, hi, q) && !q(lo) {
      var a: nat :| lo <= a <= hi && ItemStart(s, lo, a) && q(a);
      SliceStart(s, lo, hi, a);
      assert q'(a - lo);
    }
  }

  lemma SliceStart(s: string, lo: nat, hi: nat, a: nat)
    requires lo < a <= hi <= |s|
    ensures ItemStart(s, lo, a) <==> s[lo..hi][a - lo - 1] == ',' && Level(s[lo..hi], 0, a - lo - 1) == 0
  {
    LevelShift(s[lo..hi], s, lo, 0, a - lo - 1);
  }

  lemma TestPieceAt(s: string, a: nat, b: nat)
    requires a <= b && EndsPiece(s, b)
    ensures TestPiece(s[a..b]) == TestAt(s, a)
  {
    PieceWord(s, a, b);
  }

  lemma CallPieceAt(s: string, a: nat, b: nat)
    requires a <= b && EndsPiece(s, b)
    ensures CallPiece(s[a..b]) == AnyCallAt(s, a)
  {
    PieceCall(s, a, b, "all");
    PieceCall(s, a, b, "any");
    PieceCall(s, a, b, "not");
  }

  lemma SliceByStart(s: string, lo: nat, hi: nat, p: string -> bool, q: nat -> bool)
    requires lo <= hi && EndsPiece(s, hi)
    requires forall a: nat, b: nat {:trigger s[a..b]} :: a <= b && EndsPiece(s, b) ==> p(s[a..b]) == q(a)
    ensures ByStart(s[lo..hi], p, (a: nat) => q(lo + a))
  {
    var x := s[lo..hi];
    forall a: nat, b: nat | a <= b <= |x| && (b == |x| || x[b] == ',')
      ensures p(x[a..b]) == q(lo + a)
    {
      SliceSlice(s, lo, hi, a, b);
    }
  }

  lemma FlatIsAmong(inner: string)
    ensures FlatVerdict(inner) == if Among(SplitTop(inner), CallPiece) then None else Some(Among(SplitTop(inner), TestPiece))
  {
    var parts := SplitTop(inner);
    assert Among(parts, CallPiece) <==> exists i | 0 <= i < |parts| :: IsCall(Strip(parts[i]));
    assert Among(parts, TestPiece) <==> exists i | 0 <= i < |parts| :: BareTest(Strip(parts[i]));
  }

  ghost predicate CallWithin(s: string, lo: nat, from: nat, to: nat)
  {
    ItemWithin(s, lo, from, to, (a: nat) => AnyCallAt(s, a))
  }

  lemma TestsOfSlice(s: string, lo: nat, hi: nat)
    requires lo <= hi && EndsPiece(s, hi)
    ensures Among(SplitTop(s[lo..hi]), TestPiece) <==> TestWithin(s, lo, lo, hi)
  {
    var q := (a: nat) => TestAt(s, a);
    forall a: nat, b: nat | a <= b && EndsPiece(s, b)
      ensures TestPiece(s[a..b]) == q(a)
    {
      TestPieceAt(s, a, b);
    }
    SliceByStart(s, lo, hi, TestPiece, q);
    ItemsOfSlice(s, lo, hi, TestPiece, q);
  }

  lemma CallsOfSlice(s: string, lo: nat, hi: nat)
    requires lo <= hi && EndsPiece(s, hi)
    ensures Among(SplitTop(s[lo..hi]), CallPiece) <==> CallWithin(s, lo, lo, hi)
  {
    var q := (a: nat) => AnyCallAt(s, a);
    forall a: nat, b: nat | a <= b && EndsPiece(s, b)
      ensures CallPiece(s[a..b]) == q(a)
    {
      CallPieceAt(s, a, b);
    }
    SliceByStart(s, lo, hi, CallPiece, q);
    ItemsOfSlice(s, lo, hi, CallPiece, q);
  }

  /** What the table reads inside a call, by positions of the text. */
  lemma FlatReads(s: string, lo: nat, hi: nat)
    requires lo <= hi && EndsPiece(s, hi)
    ensures FlatVerdict(s[lo..hi]) == if CallWithin(s, lo, lo, hi) then None else Some(TestWithin(s, lo, lo, hi))
  {
    FlatIsAmong(s[lo..hi]);
    CallsOfSlice(s, lo, hi);
    TestsOfSlice(s, lo, hi);
  }

  // ----- verdicts of the evaluator -----

  lemma CallOpenParts(e: string, word: string)
    requires IsIdent(word) && CallOpen(e, word).Some?
    ensures HasWord(e, 0) && WordEnd(e, 0) == |word| && e[..|word|] == word
    ensures var open := CallOpen(e, word).value;
            |word| < open <= |e| && e[open - 1] == '(' && AfterWord(e) == e[open - 1..]
  {
    var rest := e[|word|..];
    assert e == word + rest;
    var k := SkipWs(e, |word|);
    assert rest[0] == e[|word|];
    WordOf(e, word, rest);
    SkipBlank(rest, 0, k - |word|);
    assert rest[k - |word|..] == e[k..];
  }

  /** A part without a call in front gates only as a bare `test`. */
  lemma FlatPart(part: string)
    requires !IsCall(Strip(part))
    ensures ElemGates(part) <==> BareTest(Strip(part))
  {
    var e := Strip(part);
    if HasWord(e, 0) {
      var w := e[..WordEnd(e, 0)];
      if w == "any" || w == "all" {
        NoCallNoParens(e, w);
      }
    }
  }

  lemma NoCallNoParens(e: string, w: string)
    requires HasWord(e, 0) && e[..WordEnd(e, 0)] == w && CallOpen(e, w).None?
    ensures !InParens(AfterWord(e))
  {
    var rest := e[|w|..];
    var k := SkipWs(e, |w|);
    assert forall x :: 0 <= x < k - |w| ==> rest[x] == e[|w| + x];
    assert k < |e| ==> rest[k - |w|] == e[k];
    SkipBlank(rest, 0, k - |w|);
    assert rest[k - |w|..] == e[k..];
  }

  lemma FlatAgrees(inner: string)
    requires FlatVerdict(inner).Some?
    ensures FlatVerdict(inner).value == Gates(inner)
  {
    var parts := SplitTop(inner);
    forall i | 0 <= i < |parts|
      ensures ElemGates(parts[i]) <==> BareTest(Strip(parts[i]))
    {
      assert !IsCall(Strip(parts[i]));
      FlatPart(parts[i]);
    }
  }

  lemma ParenSlice(e: string, open: nat)
    requires 0 < open < |e| && e[open - 1] == '(' && e[|e| - 1] == ')'
    ensures var rest := e[open - 1..]; InParens(rest) && rest[1..|rest| - 1] == e[open..|e| - 1]
  {
    var rest := e[open - 1..];
    assert rest == e[open - 1..|e|];
    SliceSlice(e, open - 1, |e|, 1, |rest| - 1);
  }

  /** The text between the parentheses of a call. */
  lemma GroupOfCall(e: string, word: string)
    requires IsIdent(word) && CallOpen(e, word).Some? && e[|e| - 1] == ')'
    ensures var open := CallOpen(e, word).value;
            open <= |e| - 1 && HasWord(e, 0) && e[..WordEnd(e, 0)] == word && InParens(AfterWord(e))
            && AfterWord(e)[1..|AfterWord(e)| - 1] == e[open..|e| - 1]
  {
    CallOpenParts(e, word);
    var open := CallOpen(e, word).value;
    assert open < |e|;
    ParenSlice(e, open);
  }

  lemma ElemGatesGroup(s: string)
    requires var e := Strip(s);
             HasWord(e, 0) && (e[..WordEnd(e, 0)] == "all" || e[..WordEnd(e, 0)] == "any") && InParens(AfterWord(e))
    ensures var rest := AfterWord(Strip(s)); ElemGates(s) <==> Gates(rest[1..|rest| - 1])
  {
  }

  lemma CompoundAgrees(s: string, word: string)
    requires (word == "all" || word == "any") && CallOpen(Strip(s), word).Some?
    requires Strip(s)[|Strip(s)| - 1] == ')'
    ensures var e := Strip(s); CallOpen(e, word).value <= |e| - 1
    ensures ElemGates(s) <==> Gates(Strip(s)[CallOpen(Strip(s), word).value..|Strip(s)| - 1])
  {
    GroupOfCall(Strip(s), word);
    ElemGatesGroup(s);
  }

  // ----- first part and later parts -----

  lemma {:induction false} FirstPiece(s: string, i: nat, depth: int, start: nat)
    requires start <= i <= |s|
    ensures var x := CommaSplit(s, i, depth, start)[0];
            start + |x| <= |s| && x == s[start..start + |x|] && EndsPiece(s, start + |x|)
    decreases |s| - i
  {
    if i < |s| {
      if IsOpen(s[i]) { FirstPiece(s, i + 1, depth + 1, start); }
      else if IsClose(s[i]) { FirstPiece(s, i + 1, depth - 1, start); }
      else if !(s[i] == ',' && depth == 0) { FirstPiece(s, i + 1, depth, start); }
    }
  }

  ghost predicate LaterGates(pred: string)
  {
    exists k :: 1 <= k < |SplitTop(pred)| && ElemGates(SplitTop(pred)[k])
  }

  lemma FirstOrLater(pred: string)
    ensures Gates(pred) <==> ElemGates(SplitTop(pred)[0]) || LaterGates(pred)
  {
  }

  lemma Whole(pred: string)
    ensures pred[0..|pred|] == pred
  {
  }

  /** The first part starts with the word the text starts with. */
  lemma FirstWord(pred: string)
    ensures var s, e := Strip(pred), Strip(SplitTop(pred)[0]);
            && (HasWord(s, 0) <==> HasWord(e, 0))
            && (HasWord(s, 0) ==> s[..WordEnd(s, 0)] == e[..WordEnd(e, 0)])
  {
    FirstPiece(pred, 0, 0, 0);
    Whole(pred);
    PieceWord(pred, 0, |pred|);
    PieceWord(pred, 0, |SplitTop(pred)[0]|);
  }

  lemma ElemByWord(part: string)
    requires HasWord(Strip(part), 0)
    ensures var w := Strip(part)[..WordEnd(Strip(part), 0)];
            && (w == "test" ==> ElemGates(part)) && (w != "test" && w != "all" && w != "any" ==> !ElemGates(part))
  {
  }

  /** A text whose verdict is `not` or a plain name does not gate in its first part. */
  lemma SimpleFirst(pred: string)
    requires SimpleVerdict(Strip(pred)).Some?
    ensures !ElemGates(SplitTop(pred)[0])
  {
    FirstWord(pred);
    if CallOpen(Strip(pred), "not").Some? {
      CallOpenParts(Strip(pred), "not");
    }
    ElemByWord(SplitTop(pred)[0]);
  }

  lemma BareFirst(pred: string)
    requires Strip(pred) == "test"
    ensures ElemGates(SplitTop(pred)[0])
  {
    FirstWord(pred);
    assert "test" + "" == "test";
    WordOf("test", "test", "");
    ElemByWord(SplitTop(pred)[0]);
  }

  // ----- texts that start with all( or any( -----

  /** Just past the first parenthesis of a text that starts with `all(` or `any(`. */
  function HeadOpen(pred: string): nat
  {
    var b := SkipWs(pred, 0);
    if b + 3 <= |pred| then SkipWs(pred, b + 3) + 1 else 0
  }

  predicate IsClosed(part: string)
  {
    var e := Strip(part);
    e != "" && e[|e| - 1] == ')'
  }

  lemma HeadOpenIs(pred: string, c: nat, s: string, word: string) returns (open: nat)
    requires EndsPiece(pred, c) && s == Strip(pred[0..c]) && IsIdent(word) && |word| == 3 && CallOpen(s, word).Some?
    ensures CallOpen(s, word) == Some(open) && open + SkipWs(pred, 0) == HeadOpen(pred)
  {
    PieceCall(pred, 0, c, word);
    open := CallOpen(s, word).value;
  }

  /** A group that ends a piece, as a slice of the text. */
  lemma GroupSlice(pred: string, c: nat, s: string, word: string) returns (e: nat)
    requires EndsPiece(pred, c) && s == Strip(pred[0..c]) && IsIdent(word) && |word| == 3
    requires CallOpen(s, word).Some? && s[|s| - 1] == ')'
    ensures HeadOpen(pred) < e <= c && pred[e - 1] == ')' && forall k :: e <= k < c ==> IsSpace(pred[k])
    ensures CallOpen(s, word).value <= |s| - 1 && s[CallOpen(s, word).value..|s| - 1] == pred[HeadOpen(pred)..e - 1]
  {
    e := PieceStrip(pred, 0, c);
    var open := HeadOpenIs(pred, c, s, word);
    GroupOfCall(s, word);
    SliceOfGroup(pred, s, SkipWs(pred, 0), e, open);
  }

  lemma SliceOfGroup(text: string, s: string, b: nat, e: nat, open: nat)
    requires b <= e <= |text| && s == text[b..e] && open < |s|
    ensures s[open..|s| - 1] == text[b + open..e - 1] && text[e - 1] == s[|s| - 1]
  {
    SliceSlice(text, b, e, open, |s| - 1);
  }

  /** The table reads from the first parenthesis to the last one, whatever lies between. */
  lemma CompoundReads(pred: string) returns (e: nat)
    requires IsCompound(Strip(pred))
    ensures HeadOpen(pred) < e <= |pred| && pred[e - 1] == ')' && forall k :: e <= k < |pred| ==> IsSpace(pred[k])
    ensures var v := FlatVerdict(pred[HeadOpen(pred)..e - 1]);
            && (CompoundVerdict(Strip(pred)).Some? <==> v.Some?)
            && (v.Some? ==> CompoundVerdict(Strip(pred)).value.1 == v.value)
  {
    Whole(pred);
    e := GroupSlice(pred, |pred|, Strip(pred), if CallOpen(Strip(pred), "all").Some? then "all" else "any");
  }

  lemma FirstCall(pred: string, word: string)
    requires IsIdent(word)
    ensures CallOpen(Strip(pred), word) == CallOpen(Strip(SplitTop(pred)[0]), word)
  {
    FirstPiece(pred, 0, 0, 0);
    Whole(pred);
    SameFront(pred, |pred|, |SplitTop(pred)[0]|, word);
  }

  lemma SameFront(s: string, b: nat, c: nat, word: string)
    requires EndsPiece(s, b) && EndsPiece(s, c) && IsIdent(word)
    ensures CallOpen(Strip(s[0..b]), word) == CallOpen(Strip(s[0..c]), word)
  {
    PieceCall(s, 0, b, word);
    PieceCall(s, 0, c, word);
  }

  /** A first part that closes its own group gates as its group does. */
  lemma ClosedFirst(pred: string) returns (e: nat)
    requires IsCompound(Strip(pred)) && IsClosed(SplitTop(pred)[0])
    ensures HeadOpen(pred) < e <= |SplitTop(pred)[0]| <= |pred| && pred[e - 1] == ')'
    ensures forall k :: e <= k < |SplitTop(pred)[0]| ==> IsSpace(pred[k])
    ensures ElemGates(SplitTop(pred)[0]) <==> Gates(pred[HeadOpen(pred)..e - 1])
  {
    FirstPiece(pred, 0, 0, 0);
    var word := if CallOpen(Strip(pred), "all").Some? then "all" else "any";
    FirstCall(pred, word);
    var part := SplitTop(pred)[0];
    e := GroupSlice(pred, |part|, Strip(part), word);
    CompoundAgrees(part, word);
  }

  lemma OpenFirst(pred: string)
    requires IsCompound(Strip(pred)) && !IsClosed(SplitTop(pred)[0])
    ensures !ElemGates(SplitTop(pred)[0])
  {
    FirstWord(pred);
    CallOpenParts(Strip(pred), if CallOpen(Strip(pred), "all").Some? then "all" else "any");
    OpenPart(SplitTop(pred)[0], Strip(SplitTop(pred)[0]));
  }

  lemma OpenPart(part: string, e: string)
    requires e == Strip(part) && HasWord(e, 0) && e[..WordEnd(e, 0)] != "test" && e[|e| - 1] != ')'
    ensures !ElemGates(part)
  {
    var rest := e[WordEnd(e, 0)..];
    if |AfterWord(e)| > 0 {
      assert AfterWord(e)[|AfterWord(e)| - 1] == rest[|rest| - 1];
    }
  }

  /** No item starts where there is no comma. */
  lemma NoStartBeyond(s: string, lo: nat, from: nat, to: nat, hi: nat, q: nat -> bool)
    requires lo <= to <= hi <= |s| && forall k :: to <= k < hi ==> s[k] != ','
    ensures ItemWithin(s, lo, from, hi, q) <==> ItemWithin(s, lo, from, to, q)
  {
    if ItemWithin(s, lo, from, hi, q) {
      var a: nat :| from <= a <= hi && ItemStart(s, lo, a) && q(a);
      assert a <= to;
    }
  }

  lemma EarlyOrLate(s: string, lo: nat, c: nat, q: nat -> bool)
    requires c <= |s|
    ensures ItemWithin(s, lo, lo, |s|, q) <==> ItemWithin(s, lo, lo, c, q) || ItemWithin(s, lo, c + 1, |s|, q)
  {
    if ItemWithin(s, lo, lo, |s|, q) {
      var a: nat :| lo <= a <= |s| && ItemStart(s, lo, a) && q(a);
      assert a <= c || c + 1 <= a;
    }
    if ItemWithin(s, lo, c + 1, |s|, q) {
      var a: nat :| c + 1 <= a <= |s| && ItemStart(s, lo, a) && q(a);
      assert lo <= a;
    }
  }

  lemma CompoundIsTest(pred: string)
    requires IsCompound(Strip(pred)) && CompoundVerdict(Strip(pred)).Some?
    ensures CompoundVerdict(Strip(pred)).value.1 == TestWithin(pred, HeadOpen(pred), HeadOpen(pred), |pred|)
    ensures !CallWithin(pred, HeadOpen(pred), HeadOpen(pred), |pred|)
  {
    var lo := HeadOpen(pred);
    var e := CompoundReads(pred);
    FlatReads(pred, lo, e - 1);
    NoStartBeyond(pred, lo, lo, e - 1, |pred|, (a: nat) => TestAt(pred, a));
    NoStartBeyond(pred, lo, lo, e - 1, |pred|, (a: nat) => AnyCallAt(pred, a));
  }

  lemma FirstIsTest(pred: string)
    requires IsCompound(Strip(pred)) && CompoundVerdict(Strip(pred)).Some?
    ensures ElemGates(SplitTop(pred)[0])
       <==> IsClosed(SplitTop(pred)[0]) && TestWithin(pred, HeadOpen(pred), HeadOpen(pred), |SplitTop(pred)[0]|)
  {
    if IsClosed(SplitTop(pred)[0]) {
      var lo, c := HeadOpen(pred), |SplitTop(pred)[0]|;
      CompoundIsTest(pred);
      var e := ClosedFirst(pred);
      FlatReads(pred, lo, e - 1);
      NoStartBeyond(pred, lo, lo, e - 1, c, (a: nat) => TestAt(pred, a));
      FlatAgrees(pred[lo..e - 1]);
    } else {
      OpenFirst(pred);
    }
  }

  /** A text that starts with `all(` or `any(` is read right.  With an item headed `test` in the first part, that part
      must end with a parenthesis or a later part gate.  Without one, a later part must gate exactly if some comma
      after the first part, one bracket deep by the count from the first parenthesis, stands before `test`. */
  ghost predicate CompoundReadRight(pred: string)
  {
    var lo, c := HeadOpen(pred), |SplitTop(pred)[0]|;
    if TestWithin(pred, lo, lo, c) then IsClosed(SplitTop(pred)[0]) || LaterGates(pred)
    else TestWithin(pred, lo, c + 1, |pred|) <==> LaterGates(pred)
  }

  lemma CompoundExact(pred: string)
    requires IsCompound(Strip(pred)) && CompoundVerdict(Strip(pred)).Some?
    ensures CompoundVerdict(Strip(pred)).value.1 == Gates(pred) <==> CompoundReadRight(pred)
  {
    var lo, c := HeadOpen(pred), |SplitTop(pred)[0]|;
    FirstPiece(pred, 0, 0, 0);
    CompoundIsTest(pred);
    FirstIsTest(pred);
    EarlyOrLate(pred, lo, c, (a: nat) => TestAt(pred, a));
    FirstOrLater(pred);
  }

  /** On every text for which the table has a verdict, exactly when it is the evaluator's. */
  lemma TableExact(pred: string)
    requires TableVerdict(pred).Some?
    ensures TableVerdict(pred).value.1 == Gates(pred)
       <==> match TableVerdict(pred).value.0
            case OuterBare => true
            case NotHead => !LaterGates(pred)
            case PlainNonTest => !LaterGates(pred)
            case CompoundAll => CompoundReadRight(pred)
            case CompoundAny => CompoundReadRight(pred)
  {
    FirstOrLater(pred);
    if Strip(pred) == "test" {
      BareFirst(pred);
    } else if IsCompound(Strip(pred)) {
      CompoundExact(pred);
    } else {
      SimpleFirst(pred);
    }
  }

  /** On a single predicate, whatever its text, a verdict of the table is the evaluator's verdict. */
  lemma TableAgrees(pred: string)
    requires |SplitTop(pred)| == 1 && TableVerdict(pred).Some?
    ensures TableVerdict(pred).value.1 == Gates(pred)
  {
    TableExact(pred);
    if Strip(pred) != "test" && IsCompound(Strip(pred)) {
      OnePart(pred);
    }
  }

  lemma OnePart(pred: string)
    requires |SplitTop(pred)| == 1 && IsCompound(Strip(pred))
    ensures CompoundReadRight(pred)
  {
    SingleSplit(pred, 0, 0, 0);
    assert SplitTop(pred)[0] == pred[0..] == pred;
  }

  lemma {:induction false} SingleSplit(s: string, i: nat, depth: int, start: nat)
    requires start <= i <= |s| && |CommaSplit(s, i, depth, start)| == 1
    ensures CommaSplit(s, i, depth, start) == [s[start..]]
    decreases |s| - i
  {
    if i < |s| {
      if IsOpen(s[i]) { SingleSplit(s, i + 1, depth + 1, start); }
      else if IsClose(s[i]) { SingleSplit(s, i + 1, depth - 1, start); }
      else if !(s[i] == ',' && depth == 0) { SingleSplit(s, i + 1, depth, start); }
    }
  }
}

/** Attributes as text, what each does to the pass, and what the pass does to the source. */
module Attributes {

  import opened Options
  import opened Words
  import opened Delimiters
  import opened Extent
  import opened CfgPredicate
  import CfgTrees
  import opened Prune
  import Lexer

  // ----- groups and gaps -----

  lemma {:induction false} LevelAfter(s: string, i: nat, j: nat)
    requires i < j <= |s| && IsOpen(s[i]) && forall k :: i < k < j ==> s[k] != s[i] && s[k] != Closer(s[i])
    ensures Surplus(s, i, j, s[i]) == 1
    decreases j
  {
    if i + 1 < j { LevelAfter(s, i, j - 1); }
    else { assert Surplus(s, i, i, s[i]) == 0; }
  }

  /** A group without brackets of its own kind inside. */
  lemma PlainGroup(s: string, i: nat, e: nat)
    requires i + 1 < e <= |s| && IsOpen(s[i]) && s[e - 1] == Closer(s[i])
    requires forall k :: i < k < e - 1 ==> s[k] != s[i] && s[k] != Closer(s[i])
    ensures ClosedAt(s, i, e)
  {
    forall k | i < k < e
      ensures Surplus(s, i, k, s[i]) == 1
    {
      LevelAfter(s, i, k);
    }
  }

  /** Nothing but whitespace in [i, j), and something else at `j`. */
  predicate Gap(s: string, i: nat, j: nat)
  {
    i <= j < |s| && (forall k :: i <= k < j ==> IsSpace(s[k])) && !IsSpace(s[j])
  }

  lemma GapSkips(s: string, i: nat, j: nat)
    requires Gap(s, i, j)
    ensures SkipWs(s, i) == j
  {
    CfgTrees.SkipBlank(s, i, j);
  }

  // ----- cfg attributes -----

  lemma MatchIs(s: string, i: nat, e: nat)
    requires i < |s| && IsOpen(s[i])
    ensures MatchStrict(s, i) == Some(e) <==> ClosedAt(s, i, e)
  {
    StrictVsLenient(s, i);
  }

  /** `#`, `!` if inner, and `[` at `b`. */
  predicate BracketForm(s: string, a: nat, inner: bool, b: nat)
  {
    a + 1 < |s| && s[a] == '#' && (inner <==> s[a + 1] == '!') && Gap(s, if inner then a + 2 else a + 1, b) && s[b] == '['
  }

  /** `cfg` at `c` and `(` at `p`, behind `b`. */
  predicate BodyForm(s: string, b: nat, c: nat, p: nat)
  {
    Gap(s, b + 1, c) && c + 3 <= |s| && s[c..c + 3] == "cfg" && Gap(s, c + 3, p) && s[p] == '('
  }

  /** A cfg attribute with whitespace anywhere between its marks; the parenthesis closes right before `m` and the bracket
      right before `stop`. */
  ghost predicate CfgForm(s: string, a: nat, inner: bool, b: nat, c: nat, p: nat, m: nat, stop: nat)
  {
    BracketForm(s, a, inner, b) && BodyForm(s, b, c, p) && ClosedAt(s, b, stop) && ClosedAt(s, p, m)
  }

  lemma BracketExactly(s: string, a: nat, b: nat)
    ensures AttrBracket(s, a) == Some(b) <==> BracketForm(s, a, IsCh(s, a + 1, '!'), b)
  {
    var from := if IsCh(s, a + 1, '!') then a + 2 else a + 1;
    if Gap(s, from, b) { GapSkips(s, from, b); }
  }

  lemma BodyRead(s: string, a: nat, b: nat, c: nat, p: nat, m: nat, stop: nat)
    requires b < stop <= |s| && BodyForm(s, b, c, p) && MatchStrict(s, p) == Some(m) && p + 1 < m <= |s|
    ensures CfgBody(s, a, b, stop) == CfgAttr(stop, IsCh(s, a + 1, '!'), s[p + 1..m - 1])
  {
    GapSkips(s, b + 1, c);
    GapSkips(s, c + 3, p);
  }

  lemma ReadBody(s: string, a: nat, b: nat, stop: nat) returns (c: nat, p: nat, m: nat)
    requires b < stop <= |s| && CfgBody(s, a, b, stop).CfgAttr?
    ensures BodyForm(s, b, c, p) && MatchStrict(s, p) == Some(m) && p + 1 < m <= |s|
    ensures CfgBody(s, a, b, stop) == CfgAttr(stop, IsCh(s, a + 1, '!'), s[p + 1..m - 1])
  {
    c := SkipWs(s, b + 1);
    p := SkipWs(s, c + 3);
    m := MatchStrict(s, p).value;
    assert s[c] == s[c..c + 3][0];
  }

  lemma FormRead(s: string, a: nat, inner: bool, b: nat, c: nat, p: nat, m: nat, stop: nat)
    requires CfgForm(s, a, inner, b, c, p, m, stop)
    ensures p + 1 < m <= |s| && AttrAt(s, a) == CfgAttr(stop, inner, s[p + 1..m - 1])
  {
    BracketExactly(s, a, b);
    MatchIs(s, b, stop);
    MatchIs(s, p, m);
    BodyRead(s, a, b, c, p, m, stop);
  }

  lemma ReadForm(s: string, a: nat) returns (b: nat, c: nat, p: nat, m: nat)
    requires AttrAt(s, a).CfgAttr?
    ensures var r := AttrAt(s, a); CfgForm(s, a, r.inner, b, c, p, m, r.stop) && p + 1 < m <= |s| && r.pred == s[p + 1..m - 1]
  {
    b := AttrBracket(s, a).value;
    BracketExactly(s, a, b);
    var stop := MatchStrict(s, b).value;
    MatchIs(s, b, stop);
    c, p, m := ReadBody(s, a, b, stop);
    MatchIs(s, p, m);
  }

  /** A cfg attribute is found exactly where the text has this form, with what stands between its parentheses. */
  lemma AttrExactly(s: string, a: nat, inner: bool, pred: string, stop: nat)
    ensures AttrAt(s, a) == CfgAttr(stop, inner, pred)
       <==> exists b: nat, c: nat, p: nat, m: nat :: CfgForm(s, a, inner, b, c, p, m, stop) && p + 1 < m <= |s| && pred == s[p + 1..m - 1]
  {
    if AttrAt(s, a) == CfgAttr(stop, inner, pred) {
      var b, c, p, m := ReadForm(s, a);
    }
    if b: nat, c: nat, p: nat, m: nat :| CfgForm(s, a, inner, b, c, p, m, stop) && p + 1 < m <= |s| && pred == s[p + 1..m - 1] {
      FormRead(s, a, inner, b, c, p, m, stop);
    }
  }

  // ----- what an attribute does -----

  ghost function Count(s: string, a: nat, c: char): nat
    requires a <= |s|
  {
    multiset(s[..a])[c]
  }

  lemma {:induction false} DepthCounts(s: string, a: nat)
    requires a <= |s|
    ensures BraceDepth(s, a) == Count(s, a, '{') - Count(s, a, '}')
  {
    if a > 0 {
      DepthCounts(s, a - 1);
      assert s[..a] == s[..a - 1] + [s[a - 1]];
    }
  }

  /** An inner test gate takes the whole file when as many braces have been closed as opened, and is refused else. */
  lemma InnerGate(s: string, a: nat, stop: nat, pred: string, cls: CharClass)
    requires a < |s| && AttrAt(s, a) == CfgAttr(stop, true, pred) && Gates(pred)
    ensures EffectAt(s, a, cls) == if Count(s, a, '{') == Count(s, a, '}') then CutAll else Fail(a)
  {
    DepthCounts(s, a);
  }

  /** A gate of anything but test code is left alone. */
  lemma OtherGate(s: string, a: nat, stop: nat, inner: bool, pred: string, cls: CharClass)
    requires a < |s| && AttrAt(s, a) == CfgAttr(stop, inner, pred) && !Gates(pred)
    ensures EffectAt(s, a, cls) == Keep
  {
  }

  /** An outer one takes what it governs, past the attributes stacked behind it. */
  lemma OuterGate(s: string, a: nat, stop: nat, pred: string, i: nat, cls: CharClass)
    requires a < |s| && stop <= |s| && AttrAt(s, a) == CfgAttr(stop, false, pred) && Gates(pred) && SkipAttrs(s, stop) == Ok(i)
    ensures EffectAt(s, a, cls) == match ExtentEnd(s, a, i, cls) case Ok(end) => Cut(end) case Refused(pos) => Fail(pos)
  {
  }

  lemma NoBracket(s: string, a: nat, cls: CharClass)
    requires a < |s| && AttrBracket(s, a).None?
    ensures EffectAt(s, a, cls) == Keep
  {
  }

  // ----- stacked attributes -----

  /** An attribute of any kind stands at `b` and ends right before `n`. */
  ghost predicate Stacked(s: string, b: nat, n: nat)
  {
    b < |s| && s[b] == '#' && var j := SkipWs(s, b + 1); IsCh(s, j, '[') && ClosedAt(s, j, n)
  }

  /** Attributes stand at all positions of `p` but the last, with nothing but whitespace between. */
  ghost predicate StackRun(s: string, i: nat, p: seq<nat>)
    requires i <= |s|
  {
    p != [] && p[0] == SkipWs(s, i) && forall x :: 0 <= x < |p| - 1 ==> NextStacked(s, p[x], p[x + 1])
  }

  ghost predicate NextStacked(s: string, b: nat, c: nat)
  {
    exists n: nat :: n <= |s| && Stacked(s, b, n) && c == SkipWs(s, n)
  }

  lemma StackedStep(s: string, i: nat, n: nat)
    requires i <= |s| && n <= |s| && Stacked(s, SkipWs(s, i), n)
    ensures SkipAttrs(s, i) == SkipAttrs(s, n)
  {
    StrictVsLenient(s, SkipWs(s, SkipWs(s, i) + 1));
  }

  ghost predicate NotStacked(s: string, b: nat)
  {
    forall n: nat :: !Stacked(s, b, n)
  }

  ghost predicate StackEnds(s: string, b: nat, r: Outcome)
  {
    var opens := IsCh(s, b, '#') && IsCh(s, SkipWs(s, b + 1), '[');
    if opens then StaysOpen(s, SkipWs(s, b + 1), |s|) && r == Refused(SkipWs(s, b + 1)) else r == Ok(b)
  }

  lemma LastStacked(s: string, i: nat)
    requires i <= |s| && NotStacked(s, SkipWs(s, i))
    ensures StackEnds(s, SkipWs(s, i), SkipAttrs(s, i))
  {
    var b := SkipWs(s, i);
    if IsCh(s, b, '#') && IsCh(s, SkipWs(s, b + 1), '[') {
      var j := SkipWs(s, b + 1);
      StrictVsLenient(s, j);
      assert MatchStrict(s, j).Some? ==> Stacked(s, b, MatchStrict(s, j).value);
    }
  }

  /** All of them are passed over; behind the last, an unclosed one is refused. */
  lemma {:induction false} StackPassed(s: string, i: nat, p: seq<nat>)
    requires i <= |s| && StackRun(s, i, p) && NotStacked(s, p[|p| - 1])
    ensures StackEnds(s, p[|p| - 1], SkipAttrs(s, i))
    decreases |p|
  {
    if |p| > 1 {
      assert NextStacked(s, p[0], p[1]);
      var n: nat :| n <= |s| && Stacked(s, p[0], n) && p[1] == SkipWs(s, n);
      StackedStep(s, i, n);
      assert StackRun(s, n, p[1..]);
      StackPassed(s, n, p[1..]);
    } else {
      LastStacked(s, i);
    }
  }

  /** From every position some run leads to where no further closed attribute stands. */
  lemma {:induction false} StackExists(s: string, i: nat) returns (p: seq<nat>)
    requires i <= |s|
    ensures StackRun(s, i, p) && NotStacked(s, p[|p| - 1])
    decreases |s| - i
  {
    var b := SkipWs(s, i);
    if n: nat :| n <= |s| && Stacked(s, b, n) {
      var q := StackExists(s, n);
      p := [b] + q;
      assert NextStacked(s, b, q[0]);
      forall x | 0 <= x < |p| - 1
        ensures NextStacked(s, p[x], p[x + 1])
      {
        if x > 0 { assert p[x] == q[x - 1] && p[x + 1] == q[x]; }
      }
    } else {
      p := [b];
    }
  }

  // ----- what the pass does -----

  function Blanked(c: char): char
  {
    if c == '\n' then '\n' else ' '
  }

  /** With neither a refusal nor a file-wide gate, exactly the regions are blanked. */
  lemma {:induction false} PassBlanks(effects: seq<Effect>, out: string, a: nat)
    requires a <= |effects| == |out| && forall b :: a <= b < |effects| ==> effects[b].Keep? || effects[b].Cut?
    ensures Apply(effects, out, a).Pruned? && |Apply(effects, out, a).text| == |out|
    ensures forall k :: 0 <= k < |out| ==>
      Apply(effects, out, a).text[k] == if InRegionFrom(effects, a, k) then Blanked(out[k]) else out[k]
    decreases |effects| - a
  {
    if a < |effects| {
      if effects[a].Keep? {
        PassBlanks(effects, out, a + 1);
        forall k | 0 <= k < |out|
          ensures InRegionFrom(effects, a, k) <==> InRegionFrom(effects, a + 1, k)
        {
        }
      } else {
        var next := Lexer.BlankRange(out, a, effects[a].end);
        PassBlanks(effects, next, a + 1);
        forall k | 0 <= k < |out|
          ensures InRegionFrom(effects, a, k) <==> a <= k < effects[a].end || InRegionFrom(effects, a + 1, k)
        {
          if a <= k < effects[a].end { assert InRegionFrom(effects, a, k); }
        }
      }
    }
  }

  ghost predicate InRegionFrom(effects: seq<Effect>, a: nat, k: nat)
  {
    exists b :: a <= b < |effects| && effects[b].Cut? && b <= k < effects[b].end
  }

  /** The first refusal or file-wide gate decides. */
  lemma {:induction false} PassStops(effects: seq<Effect>, out: string, a: nat, c: nat)
    requires a <= c < |effects| && (effects[c].CutAll? || effects[c].Fail?)
    requires forall b :: a <= b < c ==> effects[b].Keep? || effects[b].Cut?
    ensures effects[c].Fail? ==> Apply(effects, out, a) == Error(effects[c].pos)
    ensures effects[c].CutAll? ==> Apply(effects, out, a) == Pruned(seq(|out|, k requires 0 <= k < |out| => Blanked(out[k])))
    decreases c - a
  {
    if a < c {
      match effects[a]
      case Keep => PassStops(effects, out, a + 1, c);
      case Cut(end) => {
        var next := Lexer.BlankRange(out, a, end);
        PassStops(effects, next, a + 1, c);
        assert seq(|out|, k requires 0 <= k < |out| => Blanked(out[k])) == seq(|next|, k requires 0 <= k < |next| => Blanked(next[k]));
      }
    }
  }

  /** The source is blanked exactly where an attribute of its lexed text cuts, unless one refuses or takes the file. */
  lemma PruneExactly(text: string, cls: CharClass, k: nat)
    requires k < |text|
    requires forall a :: 0 <= a < |text| ==>
      EffectAt(Lexer.Lexed(text, true), a, cls).Keep? || EffectAt(Lexer.Lexed(text, true), a, cls).Cut?
    ensures StripCfgTest(text, cls).Pruned? && |StripCfgTest(text, cls).text| == |text|
    ensures StripCfgTest(text, cls).text[k]
         == if exists a :: 0 <= a < |text| && a <= k && EffectAt(Lexer.Lexed(text, true), a, cls).Cut?
                        && k < EffectAt(Lexer.Lexed(text, true), a, cls).end
            then Blanked(text[k]) else text[k]
  {
    var effects := Effects(Lexer.Lexed(text, true), cls);
    forall b | 0 <= b < |effects|
      ensures effects[b].Keep? || effects[b].Cut?
    {
      assert effects[b] == EffectAt(Lexer.Lexed(text, true), b, cls);
    }
    PassBlanks(effects, text, 0);
    if InRegionFrom(effects, 0, k) {
      var a :| 0 <= a < |effects| && effects[a].Cut? && a <= k < effects[a].end;
      assert effects[a] == EffectAt(Lexer.Lexed(text, true), a, cls);
    }
    if a :| 0 <= a < |text| && a <= k && EffectAt(Lexer.Lexed(text, true), a, cls).Cut? && k < EffectAt(Lexer.Lexed(text, true), a, cls).end {
      assert effects[a] == EffectAt(Lexer.Lexed(text, true), a, cls);
      assert InRegionFrom(effects, 0, k);
    }
  }
}

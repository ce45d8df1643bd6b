/** Every pruned region is well nested, and so is what remains. */
module PruneProps {

  import opened Options
  import opened Delimiters
  import opened Extent
  import opened ExtentProps
  import opened Prune
  import opened Lexer

  // ----- blanking a balanced stretch -----

  lemma {:induction false} RunSame(s: string, t: string, i: nat, j: nat, stack: Stack)
    requires |s| == |t| && i <= j <= |s| && forall k :: i <= k < j ==> s[k] == t[k]
    ensures Run(s, i, j, stack) == Run(t, i, j, stack)
    decreases j
  {
    if i < j { RunSame(s, t, i, j - 1, stack); }
  }

  lemma {:induction false} BlankRun(s: string, p: nat, q: nat, i: nat, j: nat, stack: Stack)
    requires p <= i <= j <= q && j <= |s|
    ensures Run(BlankRange(s, p, q), i, j, stack) == Some(stack)
    decreases j
  {
    if i < j { BlankRun(s, p, q, i, j - 1, stack); }
  }

  /** Two balanced stretches overlap in a balanced stretch. */
  lemma OverlapBalanced(t: string, i: nat, m: nat, n: nat, j: nat)
    requires i <= m <= n <= j && Balanced(t, i, n) && Balanced(t, m, j)
    ensures Balanced(t, m, n)
  {
    RunSplit(t, i, m, n, []);
    RunSplit(t, m, n, j, []);
    var u := Run(t, i, m, []).value;
    RunFrame(t, m, n, u, []);
    assert u + [] == u;
  }

  /** Blanking [lo, hi), itself balanced, does not change what any wider stretch does. */
  lemma BlankInner(t: string, p: nat, q: nat, i: nat, lo: nat, hi: nat, j: nat)
    requires i <= lo <= hi <= j <= |t| && p <= lo && hi <= q && Balanced(t, lo, hi)
    requires (lo == i || lo == p) && (hi == j || hi == q)
    ensures Run(BlankRange(t, p, q), i, j, []) == Run(t, i, j, [])
  {
    var t' := BlankRange(t, p, q);
    RunSplit(t, i, lo, j, []);
    RunSplit(t', i, lo, j, []);
    RunSame(t, t', i, lo, []);
    if Run(t, i, lo, []).Some? {
      var x := Run(t, i, lo, []).value;
      RunSplit(t, lo, hi, j, x);
      RunSplit(t', lo, hi, j, x);
      BalancedKeeps(t, lo, hi, x);
      BlankRun(t, p, q, lo, hi, x);
      RunSame(t, t', hi, j, x);
    }
  }

  /** Blanking one balanced stretch keeps every balanced stretch balanced, nested, apart or overlapping. */
  lemma BlankKeepsBalanced(t: string, p: nat, q: nat, i: nat, j: nat)
    requires Balanced(t, p, q) && Balanced(t, i, j)
    ensures Balanced(BlankRange(t, p, q), i, j)
  {
    if q <= i || j <= p {
      RunSame(t, BlankRange(t, p, q), i, j, []);
    } else if p <= i && j <= q {
      BlankRun(t, p, q, i, j, []);
    } else if i <= p && q <= j {
      BlankInner(t, p, q, i, p, q, j);
    } else if p <= i {
      OverlapBalanced(t, p, i, q, j);
      BlankInner(t, p, q, i, i, q, j);
    } else {
      OverlapBalanced(t, i, p, j, q);
      BlankInner(t, p, q, i, p, j, j);
    }
  }

  // ----- regions -----

  /** One stacked attribute. */
  lemma StackedNested(s: string, start: nat, b: nat, j: nat)
    requires Nested(s) && Balanced(s, start, b) && IsCh(s, b, '#') && b + 1 <= |s| && j == SkipWs(s, b + 1) && IsCh(s, j, '[') && MatchStrict(s, j).Some?
    ensures Balanced(s, start, MatchStrict(s, j).value)
  {
    CharRun(s, start, b);
    SpaceRun(s, start, b + 1);
    GroupRun(s, start, j);
  }

  lemma {:induction false} SkipAttrsNested(s: string, start: nat, i: nat)
    requires Nested(s) && Balanced(s, start, i) && i <= |s| && SkipAttrs(s, i).Ok?
    ensures Balanced(s, start, SkipAttrs(s, i).end)
    decreases |s| - i
  {
    var b := SkipWs(s, i);
    assert Balanced(s, start, b) by { SpaceRun(s, start, i); }
    if IsCh(s, b, '#') {
      var j := SkipWs(s, b + 1);
      if IsCh(s, j, '[') {
        StackedNested(s, start, b, j);
        SkipAttrsNested(s, start, MatchStrict(s, j).value);
      }
    }
  }

  lemma AttrNested(s: string, a: nat)
    requires Nested(s) && AttrAt(s, a).CfgAttr?
    ensures Balanced(s, a, AttrAt(s, a).stop)
  {
    BalancedEmpty(s, a);
    CharRun(s, a, a);
    if IsCh(s, a + 1, '!') {
      CharRun(s, a, a + 1);
    }
    SpaceRun(s, a, if IsCh(s, a + 1, '!') then a + 2 else a + 1);
    GroupRun(s, a, AttrBracket(s, a).value);
  }

  /** A pruned region is at least two wide, well nested, and ends at a terminator. */
  ghost predicate GoodRegion(s: string, a: nat, end: nat)
  {
    a + 2 <= end <= |s| && Balanced(s, a, end) && Anchored(s, end)
  }

  lemma RegionNested(text: string, a: nat, cls: CharClass)
    requires Nested(Lexed(text, true)) && a < |text| && EffectAt(Lexed(text, true), a, cls).Cut?
    ensures GoodRegion(Lexed(text, true), a, EffectAt(Lexed(text, true), a, cls).end)
  {
    var s := Lexed(text, true);
    var attr := AttrAt(s, a);
    AttrNested(s, a);
    SkipAttrsNested(s, a, attr.stop);
    ExtentNested(text, a, a, SkipAttrs(s, attr.stop).end, cls);
  }

  /** Every region the pass cuts out of well-nested lexed text is well nested: it never reaches past
      the closer of the group that holds the attribute. */
  lemma RegionsNested(text: string, cls: CharClass, a: nat)
    requires Nested(Lexed(text, true)) && a < |text|
    ensures var e := Effects(Lexed(text, true), cls)[a]; e.Cut? ==> GoodRegion(Lexed(text, true), a, e.end)
  {
    if EffectAt(Lexed(text, true), a, cls).Cut? {
      RegionNested(text, a, cls);
    }
  }

  // ----- what remains -----

  /** Whatever is balanced in `s` is balanced in `t`. */
  ghost predicate KeepsBalance(s: string, t: string)
  {
    |s| == |t| && forall i, j :: Balanced(s, i, j) ==> Balanced(t, i, j)
  }

  lemma CutKeepsBalance(s: string, t: string, a: nat, end: nat)
    requires KeepsBalance(s, t) && Balanced(s, a, end)
    ensures KeepsBalance(s, BlankRange(t, a, end))
  {
    forall i, j | Balanced(s, i, j)
      ensures Balanced(BlankRange(t, a, end), i, j)
    {
      BlankKeepsBalanced(t, a, end, i, j);
    }
  }

  ghost predicate AllRegionsGood(s: string, effects: seq<Effect>)
  {
    |effects| == |s| && forall a :: 0 <= a < |s| && effects[a].Cut? ==> GoodRegion(s, a, effects[a].end)
  }

  lemma {:induction false} RemainderNested(s: string, effects: seq<Effect>, t: string, a: nat)
    requires Nested(s) && AllRegionsGood(s, effects) && KeepsBalance(s, t) && a <= |s|
    requires Apply(effects, t, a).Pruned?
    ensures Nested(Apply(effects, t, a).text)
    decreases |s| - a
  {
    if a < |s| {
      match effects[a]
      case Keep => RemainderNested(s, effects, t, a + 1);
      case Cut(end) =>
        CutKeepsBalance(s, t, a, end);
        RemainderNested(s, effects, BlankRange(t, a, end), a + 1);
      case CutAll => BlankRun(t, 0, |t|, 0, |t|, []);
      case Fail(pos) =>
    } else {
      assert Balanced(t, 0, |t|);
    }
  }

  /** Blanking all regions of well-nested lexed text, overlapping ones included, leaves well-nested text. */
  lemma LexedRemainderNested(text: string, cls: CharClass)
    requires Nested(Lexed(text, true)) && Apply(Effects(Lexed(text, true), cls), Lexed(text, true), 0).Pruned?
    ensures Nested(Apply(Effects(Lexed(text, true), cls), Lexed(text, true), 0).text)
  {
    var s := Lexed(text, true);
    var effects := Effects(s, cls);
    forall a | 0 <= a < |s| && effects[a].Cut?
      ensures GoodRegion(s, a, effects[a].end)
    {
      RegionsNested(text, cls, a);
    }
    RemainderNested(s, effects, s, 0);
  }
}

/** The warm matrix, told from the evaluation results: how many shards, what they build and what they are called. */
module WarmFacts {

  import opened Fields
  import opened Ordering
  import opened Trunk
  import opened Clusters
  import opened Packing
  import opened Matrix
  import opened Pipeline
  import opened SplitRace
  import opened PlanFacts

  /** The warm shards: at most four, one per component while there are no more than four, and together exactly the
      drvs that two clusters need. */
  lemma WarmExactly(results: seq<EvalResult>, size: nat, light: seq<string>, count: nat, trunk: set<Drv>, comps: seq<Component>, out: Outputs, d: Drv)
    requires size > 0 && Dealt(results, size, light, count) && IsPlan(Pending(results), size, trunk, comps, out)
    ensures |out.warm| == if |comps| < 4 then |comps| else 4
    ensures (exists b :: 0 <= b < |out.warm| && d in out.warm[b].drvs) <==> SharedNeed(results, light, count, d)
  {
    var needs := Needs(Pending(results), size);
    ComponentsPackable(needs, trunk, comps);
    ShardsAreChoices(comps, MAX_WARM_SHARDS);
    WarmSharesTrunk(needs, trunk, comps);
    TrunkExactly(results, size, light, count, trunk, d);
  }

  // ----- names -----

  /** An entry of the kind cannot be built without a drv of the list. */
  ghost predicate Touches(results: seq<EvalResult>, kind: Kind, drvs: seq<Drv>)
  {
    IsMatrixKind(kind) && exists t, d :: Wants(results, kind, t, d) && d in drvs
  }

  /** The needs say which entries want what: a need holds what some entry of its kind wants, and every such wish is in
      a need of the kind. */
  ghost predicate Tells(results: seq<EvalResult>, needs: seq<Need>)
  {
    && (forall i, d :: 0 <= i < |needs| && d in needs[i].drvs ==> WantedBy(results, needs[i].kind, d))
    && (forall kind, d :: WantedBy(results, kind, d) ==> HasNeed(needs, kind, d))
  }

  ghost predicate WantedBy(results: seq<EvalResult>, kind: Kind, d: Drv)
  {
    IsMatrixKind(kind) && exists t :: Wants(results, kind, t, d)
  }

  ghost predicate HasNeed(needs: seq<Need>, kind: Kind, d: Drv)
  {
    exists i :: 0 <= i < |needs| && needs[i].kind == kind && d in needs[i].drvs
  }

  lemma InBlock(needs: seq<Need>, base: nat, cs: seq<Cluster>, metas: Metas, kind: Kind, k: nat, t: string, d: Drv)
    requires Known(cs, metas) && NeedsAt(needs, base, cs, metas) && KindAt(needs, base, |cs|, kind)
    requires k < |cs| && t in cs[k].targets && t in metas && d in metas[t].needed
    ensures HasNeed(needs, kind, d)
  {
    assert d in needs[base + k].drvs;
  }

  lemma KindInBlock(needs: seq<Need>, base: nat, n: nat, kind: Kind, k: nat)
    requires KindAt(needs, base, n, kind) && k < n
    ensures base + k < |needs| && needs[base + k].kind == kind
  {
  }

  lemma NeedIsWanted(results: seq<EvalResult>, size: nat, needs: seq<Need>, i: nat, d: Drv)
    requires size > 0 && needs == Needs(Pending(results), size) && i < |needs| && d in needs[i].drvs
    ensures WantedBy(results, needs[i].kind, d)
  {
    var pend := Pending(results);
    var m, k, t := NeedComesFrom(pend, size, i, d);
    KindNeedsAt(pend, size, m);
    KindInBlock(needs, |NeedsUpTo(pend, size, m)|, |ClustersOf(pend, MATRIX_KINDS[m], size)|, MATRIX_KINDS[m], k);
    KindsAre(m, m);
    WantsIs(results, MATRIX_KINDS[m], t, d);
  }

  lemma WantedIsNeed(results: seq<EvalResult>, size: nat, needs: seq<Need>, m: nat, t: string, d: Drv)
    requires size > 0 && needs == Needs(Pending(results), size) && m < |MATRIX_KINDS| && Wants(results, MATRIX_KINDS[m], t, d)
    ensures HasNeed(needs, MATRIX_KINDS[m], d)
  {
    var pend := Pending(results);
    KindsAre(m, m);
    WantsIs(results, MATRIX_KINDS[m], t, d);
    var k := TargetHeld(pend, size, MATRIX_KINDS[m], t);
    KindNeedsAt(pend, size, m);
    InBlock(needs, |NeedsUpTo(pend, size, m)|, ClustersOf(pend, MATRIX_KINDS[m], size), MetasOf(pend, MATRIX_KINDS[m]), MATRIX_KINDS[m], k, t, d);
  }

  lemma NeedsTell(results: seq<EvalResult>, size: nat, needs: seq<Need>)
    requires size > 0 && needs == Needs(Pending(results), size)
    ensures Tells(results, needs)
  {
    forall i, d | 0 <= i < |needs| && d in needs[i].drvs
      ensures WantedBy(results, needs[i].kind, d)
    {
      NeedIsWanted(results, size, needs, i, d);
    }
    forall kind, d | WantedBy(results, kind, d)
      ensures HasNeed(needs, kind, d)
    {
      var m := KindIndex(kind);
      var t :| Wants(results, kind, t, d);
      WantedIsNeed(results, size, needs, m, t, d);
    }
  }

  lemma KindOfShard(results: seq<EvalResult>, needs: seq<Need>, trunk: set<Drv>, comps: seq<Component>, a: seq<nat>, b: nat, drvs: seq<Drv>, kind: Kind)
    requires Tells(results, needs) && AllClasses(needs, trunk, comps) && |a| == |comps|
    requires forall d :: d in drvs <==> d in ShardDrvs(comps, a, b)
    ensures kind in ShardKinds(comps, a, b) <==> Touches(results, kind, drvs)
  {
    if kind in ShardKinds(comps, a, b) {
      var i :| 0 <= i < |a| && a[i] == b && kind in comps[i].kinds;
      assert comps[i] in comps && IsClass(needs, trunk, comps[i]);
      var n, d := TouchingNeed(needs, comps[i].drvs, kind);
      assert WantedBy(results, kind, d) && d in ShardDrvs(comps, a, b);
    }
    if Touches(results, kind, drvs) {
      var t, d :| Wants(results, kind, t, d) && d in drvs;
      assert WantedBy(results, kind, d);
      var n :| 0 <= n < |needs| && needs[n].kind == kind && d in needs[n].drvs;
      var i :| 0 <= i < |a| && a[i] == b && d in comps[i].drvs;
      assert comps[i] in comps && IsClass(needs, trunk, comps[i]);
      NeedTouches(needs, comps[i].drvs, n, d);
    }
  }

  lemma TouchingNeed(needs: seq<Need>, drvs: set<Drv>, kind: Kind) returns (n: nat, d: Drv)
    requires kind in KindsTouching(needs, drvs)
    ensures n < |needs| && needs[n].kind == kind && d in needs[n].drvs && d in drvs
  {
    n :| n < |needs| && needs[n].drvs * drvs != {} && needs[n].kind == kind;
    d :| d in needs[n].drvs * drvs;
  }

  lemma NeedTouches(needs: seq<Need>, drvs: set<Drv>, n: nat, d: Drv)
    requires n < |needs| && d in needs[n].drvs && d in drvs
    ensures needs[n].kind in KindsTouching(needs, drvs)
  {
    assert d in needs[n].drvs * drvs;
  }

  /** A shard is called after its kinds, in order, with a plus between them. */
  lemma NameExactly(kinds: set<Kind>)
    requires kinds != {} && forall k :: k in kinds ==> IsMatrixKind(k)
    ensures SplitOn(ShardName(kinds), '+') == SortedSet(kinds)
  {
    var names := SortedSet(kinds);
    var k :| k in kinds;
    assert k in names;
    forall n | n in names
      ensures '+' !in n && n != ""
    {
      KindPlain(n);
    }
    SplitJoined(names, '+');
    assert names[0] in names;
  }

  lemma KindPlain(kind: Kind)
    requires IsMatrixKind(kind)
    ensures '+' !in kind && kind != ""
  {
  }

  lemma ShippedNamed(results: seq<EvalResult>, needs: seq<Need>, trunk: set<Drv>, comps: seq<Component>, a: seq<nat>, b: nat, s: Shard)
    requires Tells(results, needs) && IsTrunk(needs, trunk) && AllClasses(needs, trunk, comps) && |a| == |comps| && Ships(s, comps, a, b)
    ensures var kinds := SplitOn(s.name, '+');
            Sorted(kinds, StrLe) && Distinct(kinds) && forall kind :: kind in kinds <==> Touches(results, kind, s.drvs)
  {
    var kinds := ShardKinds(comps, a, b);
    forall kind
      ensures kind in kinds <==> Touches(results, kind, s.drvs)
    {
      KindOfShard(results, needs, trunk, comps, a, b, s.drvs, kind);
    }
    SomeKind(needs, trunk, comps, a, b, s.drvs);
    NameExactly(kinds);
  }

  lemma SomeKind(needs: seq<Need>, trunk: set<Drv>, comps: seq<Component>, a: seq<nat>, b: nat, drvs: seq<Drv>)
    requires IsTrunk(needs, trunk) && AllClasses(needs, trunk, comps) && |a| == |comps| && |drvs| > 0
    requires forall d :: d in drvs <==> d in ShardDrvs(comps, a, b)
    ensures ShardKinds(comps, a, b) != {}
  {
    var d := drvs[0];
    assert d in drvs;
    var i :| 0 <= i < |a| && a[i] == b && d in comps[i].drvs;
    assert comps[i] in comps && IsClass(needs, trunk, comps[i]);
    var n, m :| 0 <= n < m < |needs| && d in needs[n].drvs && d in needs[m].drvs;
    NeedTouches(needs, comps[i].drvs, n, d);
    assert needs[n].kind in ShardKinds(comps, a, b);
  }

  /** The name of a warm shard lists, in order, the kinds of the entries that cannot be built without one of its drvs. */
  lemma WarmNamed(results: seq<EvalResult>, size: nat, trunk: set<Drv>, comps: seq<Component>, out: Outputs, b: nat)
    requires size > 0 && IsPlan(Pending(results), size, trunk, comps, out) && b < |out.warm|
    ensures var kinds := SplitOn(out.warm[b].name, '+');
            Sorted(kinds, StrLe) && Distinct(kinds) && forall kind :: kind in kinds <==> Touches(results, kind, out.warm[b].drvs)
  {
    var needs := Needs(Pending(results), size);
    ComponentsPackable(needs, trunk, comps);
    ShardsAreChoices(comps, MAX_WARM_SHARDS);
    NeedsTell(results, size, needs);
    ShippedNamed(results, needs, trunk, comps, Choices(comps, |comps|, BinCount(comps, MAX_WARM_SHARDS)), b, out.warm[b]);
  }
}

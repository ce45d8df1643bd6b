/** The race that splitting a mixed cluster admits: its two halves may both build a drv that only their cluster
    needs, since the trunk counts clusters before the split. */
module SplitRace {

  import opened Options
  import opened Ordering
  import opened Trunk
  import opened Clusters
  import opened Matrix
  import opened WarmStage
  import opened Pipeline

  // ----- the two halves are jobs of the plan -----

  lemma {:induction false} HotJobListed(cs: seq<Cluster>, metas: Metas, trunk: set<Drv>, base: nat, k: nat)
    requires Known(cs, metas) && k < |cs| && HotPart(cs[k], metas, trunk).targets != []
    ensures forall t :: t in HotPart(cs[k], metas, trunk).targets ==> t in metas
    ensures JobOf(HotPart(cs[k], metas, trunk), metas, base + k, true) in GatedJobs(cs, metas, trunk, true, base)
  {
    PartsKnown(cs[k], metas, trunk);
    var last := |cs| - 1;
    if k < last {
      HotJobListed(cs[..last], metas, trunk, base, k);
    }
  }

  lemma {:induction false} ColdJobListed(cs: seq<Cluster>, metas: Metas, trunk: set<Drv>, base: nat, k: nat)
    requires Known(cs, metas) && k < |cs| && ColdPart(cs[k], metas, trunk).targets != []
    ensures forall t :: t in ColdPart(cs[k], metas, trunk).targets ==> t in metas
    ensures JobOf(ColdPart(cs[k], metas, trunk), metas, base + k, false) in NowaitJobs(cs, metas, trunk, true, base)
  {
    PartsKnown(cs[k], metas, trunk);
    var last := |cs| - 1;
    if k < last {
      ColdJobListed(cs[..last], metas, trunk, base, k);
    }
  }

  lemma {:induction false} KindJobsListed(pend: Pend, size: nat, trunk: set<Drv>, n: nat, m: nat, job: Job)
    requires size > 0 && n < m <= |MATRIX_KINDS|
    requires job in KindGatedJobs(pend, size, trunk, n) || job in KindNowaitJobs(pend, size, trunk, n)
    ensures job in JobsUpTo(pend, size, trunk, m)
    decreases m
  {
    if n < m - 1 {
      KindJobsListed(pend, size, trunk, n, m - 1, job);
    }
  }

  /** The two halves of cluster k of a kind, as jobs of the plan. */
  lemma HalvesListed(pend: Pend, size: nat, trunk: set<Drv>, n: nat, k: nat) returns (x: Job, y: Job)
    requires size > 0 && n < |MATRIX_KINDS| && IsSplitKind(MATRIX_KINDS[n]) && k < |ClustersOf(pend, MATRIX_KINDS[n], size)|
    requires var c, metas := ClustersOf(pend, MATRIX_KINDS[n], size)[k], MetasOf(pend, MATRIX_KINDS[n]);
             HotPart(c, metas, trunk).targets != [] && ColdPart(c, metas, trunk).targets != []
    ensures x in JobsUpTo(pend, size, trunk, |MATRIX_KINDS|) && y in JobsUpTo(pend, size, trunk, |MATRIX_KINDS|)
    ensures x.cluster == y.cluster && x.gated && !y.gated
    ensures var c, metas := ClustersOf(pend, MATRIX_KINDS[n], size)[k], MetasOf(pend, MATRIX_KINDS[n]);
            && (forall t :: t in HotPart(c, metas, trunk).targets ==> t in metas && metas[t].drv in x.roots)
            && (forall t :: t in ColdPart(c, metas, trunk).targets ==> t in metas && metas[t].drv in y.roots)
  {
    var kind := MATRIX_KINDS[n];
    var cs, metas, base := ClustersOf(pend, kind, size), MetasOf(pend, kind), |NeedsUpTo(pend, size, n)|;
    ClustersKnown(pend, kind, size);
    HotJobListed(cs, metas, trunk, base, k);
    ColdJobListed(cs, metas, trunk, base, k);
    x := JobOf(HotPart(cs[k], metas, trunk), metas, base + k, true);
    y := JobOf(ColdPart(cs[k], metas, trunk), metas, base + k, false);
    KindJobsListed(pend, size, trunk, n, |MATRIX_KINDS|, x);
    KindJobsListed(pend, size, trunk, n, |MATRIX_KINDS|, y);
  }

  /** Two jobs of one cluster race on `d`. */
  ghost predicate HalvesRace(deps: Deps, plan: Plan, i: nat, j: nat, d: Drv)
  {
    && i < |plan.jobs| && j < |plan.jobs| && i != j && plan.jobs[i].cluster == plan.jobs[j].cluster
    && exists acts, s :: Race(deps, plan, acts, s, i, j, d)
  }

  lemma RaceEitherWay(deps: Deps, rank: Drv -> nat, plan: Plan, i: nat, j: nat, d: Drv)
    requires WellPlanned(deps, plan) && Acyclic(deps, rank) && i < |plan.jobs| && j < |plan.jobs| && i != j
    requires Wanted(deps, plan.jobs[i].roots, d) && Wanted(deps, plan.jobs[j].roots, d) && d !in plan.trunk
    ensures exists acts, s :: Race(deps, plan, acts, s, i, j, d)
  {
    var lo, hi := if i < j then i else j, if i < j then j else i;
    RaceExactly(deps, rank, plan, lo, hi, d);
    var acts, s :| Race(deps, plan, acts, s, lo, hi, d);
    assert Race(deps, plan, acts, s, i, j, d);
  }

  lemma WantedByMore(deps: Deps, roots: set<Drv>, more: set<Drv>, d: Drv)
    requires Wanted(deps, roots, d) && roots <= more
    ensures Wanted(deps, more, d)
  {
    var p :| LeadsTo(deps, roots, p, d);
    assert LeadsTo(deps, more, p, d);
  }

  lemma JobsOfPlanRace(deps: Deps, rank: Drv -> nat, plan: Plan, x: Job, y: Job, h: Drv, c: Drv, d: Drv) returns (i: nat, j: nat)
    requires WellPlanned(deps, plan) && Acyclic(deps, rank) && x in plan.jobs && y in plan.jobs
    requires x.cluster == y.cluster && x.gated && !y.gated && h in x.roots && c in y.roots
    requires Wanted(deps, {h}, d) && Wanted(deps, {c}, d) && d !in plan.trunk
    ensures HalvesRace(deps, plan, i, j, d)
  {
    i :| 0 <= i < |plan.jobs| && plan.jobs[i] == x;
    j :| 0 <= j < |plan.jobs| && plan.jobs[j] == y;
    WantedByMore(deps, {h}, x.roots, d);
    WantedByMore(deps, {c}, y.roots, d);
    RaceEitherWay(deps, rank, plan, i, j, d);
  }

  /** Whenever one cluster of a split kind holds a target that meets the trunk and one that does not, and both
      depend on a drv outside the trunk, the emitted plan has a run in which both halves build it. */
  lemma MixedClusterRaces(deps: Deps, rank: Drv -> nat, pend: Pend, size: nat, trunk: set<Drv>, comps: seq<Component>, out: Outputs,
                          n: nat, k: nat, hot: string, cold: string, d: Drv) returns (i: nat, j: nat)
    requires size > 0 && EntriesClosed(deps, pend) && Acyclic(deps, rank) && IsPlan(pend, size, trunk, comps, out)
    requires n < |MATRIX_KINDS| && IsSplitKind(MATRIX_KINDS[n]) && k < |ClustersOf(pend, MATRIX_KINDS[n], size)|
    requires var c, metas := ClustersOf(pend, MATRIX_KINDS[n], size)[k], MetasOf(pend, MATRIX_KINDS[n]);
             && hot in c.targets && cold in c.targets && hot in metas && cold in metas
             && IsHot(metas, trunk, hot) && !IsHot(metas, trunk, cold)
             && Wanted(deps, {metas[hot].drv}, d) && Wanted(deps, {metas[cold].drv}, d)
    requires d !in trunk
    ensures HalvesRace(deps, CiPlan(pend, size, trunk, out.warm), i, j, d)
  {
    var c, metas := ClustersOf(pend, MATRIX_KINDS[n], size)[k], MetasOf(pend, MATRIX_KINDS[n]);
    OutputsAreWellPlanned(deps, pend, size, trunk, comps, out);
    PartTargets(c.targets, x => IsHot(metas, trunk, x), hot);
    PartTargets(c.targets, x => !IsHot(metas, trunk, x), cold);
    var x, y := HalvesListed(pend, size, trunk, n, k);
    i, j := JobsOfPlanRace(deps, rank, CiPlan(pend, size, trunk, out.warm), x, y, metas[hot].drv, metas[cold].drv, d);
  }

  // ----- which drvs are trunk -----

  lemma NeedsStep(pend: Pend, size: nat, n: nat)
    requires size > 0 && n < |MATRIX_KINDS|
    ensures var cs, metas := ClustersOf(pend, MATRIX_KINDS[n], size), MetasOf(pend, MATRIX_KINDS[n]);
            Known(cs, metas) && NeedsUpTo(pend, size, n + 1) == NeedsUpTo(pend, size, n) + KindNeeds(MATRIX_KINDS[n], cs, metas)
  {
    ClustersKnown(pend, MATRIX_KINDS[n], size);
  }

  /** Need i stands for a cluster that holds target t of kind m. */
  ghost predicate StandsFor(pend: Pend, size: nat, i: nat, m: nat, k: nat, t: string)
    requires size > 0
  {
    && m < |MATRIX_KINDS| && k < |ClustersOf(pend, MATRIX_KINDS[m], size)| && i == |NeedsUpTo(pend, size, m)| + k
    && t in ClustersOf(pend, MATRIX_KINDS[m], size)[k].targets && t in MetasOf(pend, MATRIX_KINDS[m])
  }

  lemma EarlierNeed(pend: Pend, size: nat, n: nat, i: nat, d: Drv)
    requires size > 0 && n < |MATRIX_KINDS| && i < |NeedsUpTo(pend, size, n)| && i < |NeedsUpTo(pend, size, n + 1)|
    ensures d in NeedsUpTo(pend, size, n + 1)[i].drvs <==> d in NeedsUpTo(pend, size, n)[i].drvs
  {
    NeedsStep(pend, size, n);
  }

  lemma LastBlock(pend: Pend, size: nat, n: nat, i: nat, d: Drv) returns (k: nat, t: string)
    requires size > 0 && n < |MATRIX_KINDS| && |NeedsUpTo(pend, size, n)| <= i < |NeedsUpTo(pend, size, n + 1)|
    requires d in NeedsUpTo(pend, size, n + 1)[i].drvs
    ensures StandsFor(pend, size, i, n, k, t) && d in MetasOf(pend, MATRIX_KINDS[n])[t].needed
  {
    NeedsStep(pend, size, n);
    k := i - |NeedsUpTo(pend, size, n)|;
    t := FromKind(MATRIX_KINDS[n], ClustersOf(pend, MATRIX_KINDS[n], size), MetasOf(pend, MATRIX_KINDS[n]), k, d);
  }

  ghost predicate Listed(pend: Pend, size: nat, n: nat, i: nat, d: Drv)
    requires size > 0
  {
    n <= |MATRIX_KINDS| && i < |NeedsUpTo(pend, size, n)| && d in NeedsUpTo(pend, size, n)[i].drvs
  }

  ghost predicate ComesFrom(pend: Pend, size: nat, m: nat, i: nat, d: Drv)
    requires size > 0
  {
    exists k, t :: StandsFor(pend, size, i, m, k, t) && d in MetasOf(pend, MATRIX_KINDS[m])[t].needed
  }

  lemma ListedBefore(pend: Pend, size: nat, n: nat, i: nat, d: Drv)
    requires size > 0 && n < |MATRIX_KINDS| && Listed(pend, size, n + 1, i, d)
    ensures Listed(pend, size, n, i, d) || ComesFrom(pend, size, n, i, d)
  {
    if i < |NeedsUpTo(pend, size, n)| {
      EarlierNeed(pend, size, n, i, d);
    } else {
      var k, t := LastBlock(pend, size, n, i, d);
    }
  }

  /** What holds at `n` and not at 0 came about at some step. */
  lemma {:induction false} SomeStep(n: nat, listed: nat -> bool, here: nat -> bool) returns (m: nat)
    requires !listed(0) && listed(n) && forall x: nat :: x < n && listed(x + 1) ==> listed(x) || here(x)
    ensures m < n && here(m)
  {
    if listed(n - 1) {
      m := SomeStep(n - 1, listed, here);
    } else {
      assert listed(n - 1 + 1);
      m := n - 1;
    }
  }

  lemma NeedComesFrom(pend: Pend, size: nat, i: nat, d: Drv) returns (m: nat, k: nat, t: string)
    requires size > 0 && i < |Needs(pend, size)| && d in Needs(pend, size)[i].drvs
    ensures StandsFor(pend, size, i, m, k, t) && d in MetasOf(pend, MATRIX_KINDS[m])[t].needed
  {
    var listed := (x: nat) => Listed(pend, size, x, i, d);
    var here := (x: nat) => ComesFrom(pend, size, x, i, d);
    forall x: nat | x < |MATRIX_KINDS| && listed(x + 1)
      ensures listed(x) || here(x)
    {
      ListedBefore(pend, size, x, i, d);
    }
    m := SomeStep(|MATRIX_KINDS|, listed, here);
    assert ComesFrom(pend, size, m, i, d);
    k, t :| StandsFor(pend, size, i, m, k, t) && d in MetasOf(pend, MATRIX_KINDS[m])[t].needed;
  }

  lemma FromKind(kind: Kind, cs: seq<Cluster>, metas: Metas, k: nat, d: Drv) returns (t: string)
    requires Known(cs, metas) && k < |cs| && d in KindNeeds(kind, cs, metas)[k].drvs
    ensures t in cs[k].targets && t in metas && d in metas[t].needed
  {
    t :| t in cs[k].targets && d in metas[t].needed;
  }

  /** Only checks of group `g` need `d`. */
  ghost predicate OneGroup(pend: Pend, g: string, d: Drv)
  {
    forall kind, t :: t in MetasOf(pend, kind) && d in MetasOf(pend, kind)[t].needed ==> kind == "checks" && CheckGroup(t) == g
  }

  lemma GroupIndex(names: seq<string>, k: nat, t: string)
    requires k < |ClusterChecks(names)| && t in ClusterChecks(names)[k].targets
    ensures k < |SortedSet(GroupsOf(names))| && SortedSet(GroupsOf(names))[k] == CheckGroup(t)
  {
    var g := SortedSet(GroupsOf(names))[k];
    FilterCount(names, y => CheckGroup(y) == g, t);
    assert t in multiset(Sort(InGroup(names, g), StrLe));
  }

  lemma ChecksAreFirst(m: nat)
    requires m < |MATRIX_KINDS| && MATRIX_KINDS[m] == "checks"
    ensures m == 0
  {
  }

  /** A drv that only checks of one group need is not trunk: they share a cluster. */
  lemma OneGroupNotTrunk(pend: Pend, size: nat, trunk: set<Drv>, g: string, d: Drv)
    requires size > 0 && IsTrunk(Needs(pend, size), trunk) && OneGroup(pend, g, d)
    ensures d !in trunk
  {
    var needs := Needs(pend, size);
    if Shared(needs, d) {
      var i, j :| 0 <= i < j < |needs| && d in needs[i].drvs && d in needs[j].drvs;
      GroupNeed(pend, size, g, d, i);
      GroupNeed(pend, size, g, d, j);
      assert false;
    }
  }

  lemma StandsForCheck(pend: Pend, size: nat, i: nat, m: nat, k: nat, t: string)
    requires size > 0 && StandsFor(pend, size, i, m, k, t) && MATRIX_KINDS[m] == "checks"
    ensures i == k < |SortedSet(GroupsOf(Names(pend, "checks")))| && SortedSet(GroupsOf(Names(pend, "checks")))[k] == CheckGroup(t)
  {
    ChecksAreFirst(m);
    GroupIndex(Names(pend, "checks"), k, t);
  }

  lemma GroupNeed(pend: Pend, size: nat, g: string, d: Drv, i: nat)
    requires size > 0 && OneGroup(pend, g, d) && i < |Needs(pend, size)| && d in Needs(pend, size)[i].drvs
    ensures i < |SortedSet(GroupsOf(Names(pend, "checks")))| && SortedSet(GroupsOf(Names(pend, "checks")))[i] == g
  {
    var m, k, t := NeedComesFrom(pend, size, i, d);
    InGroupG(pend, g, d, MATRIX_KINDS[m], t);
    StandsForCheck(pend, size, i, m, k, t);
  }

  lemma InGroupG(pend: Pend, g: string, d: Drv, kind: Kind, t: string)
    requires OneGroup(pend, g, d) && t in MetasOf(pend, kind) && d in MetasOf(pend, kind)[t].needed
    ensures kind == "checks" && CheckGroup(t) == g
  {
  }

  /** Some cluster of a kind holds each of its targets. */
  lemma TargetHeld(pend: Pend, size: nat, kind: Kind, t: string) returns (k: nat)
    requires size > 0 && t in MetasOf(pend, kind)
    ensures k < |ClustersOf(pend, kind, size)| && t in ClustersOf(pend, kind, size)[k].targets
  {
    ClustersConserve(pend, kind, size);
    assert t in multiset(Names(pend, kind));
    k := ListedTarget(ClustersOf(pend, kind, size), t);
  }

  lemma {:induction false} BlocksOrdered(pend: Pend, size: nat, n: nat, m: nat)
    requires size > 0 && n < m <= |MATRIX_KINDS|
    ensures |NeedsUpTo(pend, size, n)| + |ClustersOf(pend, MATRIX_KINDS[n], size)| <= |NeedsUpTo(pend, size, m)|
    decreases m
  {
    NeedsStep(pend, size, m - 1);
    if n < m - 1 {
      BlocksOrdered(pend, size, n, m - 1);
    }
  }

  lemma InTwoBlocks(needs: seq<Need>, trunk: set<Drv>, b1: nat, cs1: seq<Cluster>, m1: Metas, k1: nat, t: string,
                    b2: nat, cs2: seq<Cluster>, m2: Metas, k2: nat, u: string, d: Drv)
    requires IsTrunk(needs, trunk) && Known(cs1, m1) && Known(cs2, m2) && NeedsAt(needs, b1, cs1, m1) && NeedsAt(needs, b2, cs2, m2)
    requires b1 + |cs1| <= b2 && k1 < |cs1| && k2 < |cs2| && t in cs1[k1].targets && u in cs2[k2].targets
    requires t in m1 && u in m2 && d in m1[t].needed && d in m2[u].needed
    ensures d in trunk
  {
    assert d in needs[b1 + k1].drvs && d in needs[b2 + k2].drvs;
    assert Shared(needs, d);
  }

  /** A drv that targets of two kinds need is trunk. */
  lemma TwoKindsTrunk(pend: Pend, size: nat, trunk: set<Drv>, n: nat, t: string, m: nat, u: string, d: Drv)
    requires size > 0 && IsTrunk(Needs(pend, size), trunk) && n < m < |MATRIX_KINDS|
    requires t in MetasOf(pend, MATRIX_KINDS[n]) && d in MetasOf(pend, MATRIX_KINDS[n])[t].needed
    requires u in MetasOf(pend, MATRIX_KINDS[m]) && d in MetasOf(pend, MATRIX_KINDS[m])[u].needed
    ensures d in trunk
  {
    var k := TargetHeld(pend, size, MATRIX_KINDS[n], t);
    var l := TargetHeld(pend, size, MATRIX_KINDS[m], u);
    KindNeedsAt(pend, size, n);
    KindNeedsAt(pend, size, m);
    BlocksOrdered(pend, size, n, m);
    InTwoBlocks(Needs(pend, size), trunk,
                |NeedsUpTo(pend, size, n)|, ClustersOf(pend, MATRIX_KINDS[n], size), MetasOf(pend, MATRIX_KINDS[n]), k, t,
                |NeedsUpTo(pend, size, m)|, ClustersOf(pend, MATRIX_KINDS[m], size), MetasOf(pend, MATRIX_KINDS[m]), l, u, d);
  }

  // ----- an evaluation on which it happens -----

  /** Two checks of the misc cluster share `s`; one of them also needs `t`, which a fuzz target needs too. */
  function Mixed(): seq<EvalResult>
  {
    [EvalResult("checks.a", false, "a", ["a", "s"], None),
     EvalResult("checks.b", false, "b", ["b", "s", "t"], None),
     EvalResult("fuzz.c", false, "c", ["c", "t"], None)]
  }

  function MixedDeps(d: Drv): set<Drv>
  {
    if d == "a" then {"s"} else if d == "b" then {"s", "t"} else if d == "c" then {"t"} else {}
  }

  function MixedRank(d: Drv): nat
  {
    if d == "s" || d == "t" then 0 else 1
  }

  lemma ChecksAttr(name: string)
    ensures SplitAttr("checks." + name) == ("checks", name)
  {
    SplitAttrJoined("checks", name);
    assert "checks" + "." == "checks.";
  }

  lemma FuzzAttr(name: string)
    ensures SplitAttr("fuzz." + name) == ("fuzz", name)
  {
    SplitAttrJoined("fuzz", name);
    assert "fuzz" + "." == "fuzz.";
  }

  lemma MixedAttrs()
    ensures SplitAttr("checks.a") == ("checks", "a") && SplitAttr("checks.b") == ("checks", "b") && SplitAttr("fuzz.c") == ("fuzz", "c")
  {
    ChecksAttr("a");
    ChecksAttr("b");
    FuzzAttr("c");
    assert "checks." + "a" == "checks.a" && "checks." + "b" == "checks.b" && "fuzz." + "c" == "fuzz.c";
  }

  lemma NeededOf(r: EvalResult, d: Drv)
    ensures d in AsMeta(r).needed <==> d in r.needed
  {
  }

  /** The pending table holds the three entries and nothing else. */
  lemma MixedLookup(kind: Kind, t: string)
    ensures t in MetasOf(Pending(Mixed()), kind) <==> (kind, t) == ("checks", "a") || (kind, t) == ("checks", "b") || (kind, t) == ("fuzz", "c")
    ensures t in MetasOf(Pending(Mixed()), kind) ==>
      MetasOf(Pending(Mixed()), kind)[t] == AsMeta(Mixed()[if t == "a" then 0 else if t == "b" then 1 else 2])
  {
    MixedAttrs();
    var r := Mixed();
    assert r[..2][..1] == r[..1] && r[..1][..0] == [] && r[..2][1] == r[1] && r[..1][0] == r[0];
    EnterLookup(Pending(r[..2]), r[2], kind, t);
    EnterLookup(Pending(r[..1]), r[1], kind, t);
    EnterLookup(Pending([]), r[0], kind, t);
  }

  lemma MixedNeeded(i: nat, d: Drv)
    requires i < 3
    ensures Mixed()[i].drv == if i == 0 then "a" else if i == 1 then "b" else "c"
    ensures d in Mixed()[i].needed <==> d == Mixed()[i].drv || (d == "s" && i < 2) || (d == "t" && i > 0)
  {
    assert d in ["a", "s"] <==> d == "a" || d == "s";
    assert d in ["b", "s", "t"] <==> d == "b" || d == "s" || d == "t";
    assert d in ["c", "t"] <==> d == "c" || d == "t";
  }

  function MixedNeed(t: string): set<Drv>
  {
    if t == "a" then {"a", "s"} else if t == "b" then {"b", "s", "t"} else {"c", "t"}
  }

  ghost predicate MixedMeta(kind: Kind, t: string, m: Meta)
  {
    m.drv == t && m.needed == MixedNeed(t) && ((kind == "checks" && (t == "a" || t == "b")) || (kind == "fuzz" && t == "c"))
  }

  /** The pending table of the evaluation. */
  ghost predicate IsMixed(pend: Pend)
  {
    && (forall kind, t :: t in MetasOf(pend, kind) ==> MixedMeta(kind, t, MetasOf(pend, kind)[t]))
    && "a" in MetasOf(pend, "checks") && "b" in MetasOf(pend, "checks") && "c" in MetasOf(pend, "fuzz")
  }

  lemma MixedMetaAt(i: nat, t: string)
    requires i < 3 && t == Mixed()[i].drv
    ensures AsMeta(Mixed()[i]).drv == t && AsMeta(Mixed()[i]).needed == MixedNeed(t)
  {
    forall d
      ensures d in AsMeta(Mixed()[i]).needed <==> d in MixedNeed(t)
    {
      NeededOf(Mixed()[i], d);
      MixedNeeded(i, d);
    }
  }

  lemma MixedEntry(kind: Kind, t: string)
    requires t in MetasOf(Pending(Mixed()), kind)
    ensures MixedMeta(kind, t, MetasOf(Pending(Mixed()), kind)[t])
  {
    MixedLookup(kind, t);
    var i := if t == "a" then 0 else if t == "b" then 1 else 2;
    MixedNeeded(i, "a");
    MixedMetaAt(i, t);
  }

  lemma MixedIs()
    ensures IsMixed(Pending(Mixed()))
  {
    forall kind, t | t in MetasOf(Pending(Mixed()), kind)
      ensures MixedMeta(kind, t, MetasOf(Pending(Mixed()), kind)[t])
    {
      MixedEntry(kind, t);
    }
    MixedLookup("checks", "a");
    MixedLookup("checks", "b");
    MixedLookup("fuzz", "c");
  }

  lemma MixedMetaClosed(kind: Kind, t: string, m: Meta)
    requires MixedMeta(kind, t, m)
    ensures MetaClosed(MixedDeps, m)
  {
  }

  lemma MixedClosed(pend: Pend)
    requires IsMixed(pend)
    ensures EntriesClosed(MixedDeps, pend) && Acyclic(MixedDeps, MixedRank)
  {
    forall kind, t | t in MetasOf(pend, kind)
      ensures MetaClosed(MixedDeps, MetasOf(pend, kind)[t])
    {
      MixedMetaClosed(kind, t, MetasOf(pend, kind)[t]);
    }
  }

  lemma MiscGroup()
    ensures CheckGroup("a") == "misc" && CheckGroup("b") == "misc"
  {
    NoPrefix("a", ["clippy-test-", "clippy-", "doc-", "nextest-"]);
    NoPrefix("b", ["clippy-test-", "clippy-", "doc-", "nextest-"]);
  }

  lemma {:induction false} NoPrefix(name: string, prefixes: seq<string>)
    requires forall i :: 0 <= i < |prefixes| ==> |prefixes[i]| > |name|
    ensures MemberOf(name, prefixes) == "misc"
  {
    if prefixes != [] {
      NoPrefix(name, prefixes[1..]);
    }
  }

  lemma MixedOneGroup(pend: Pend, d: Drv)
    requires IsMixed(pend) && (d == "s" || d == "a")
    ensures OneGroup(pend, "misc", d)
  {
    MiscGroup();
    forall kind, t | t in MetasOf(pend, kind) && d in MetasOf(pend, kind)[t].needed
      ensures kind == "checks" && CheckGroup(t) == "misc"
    {
      assert MixedMeta(kind, t, MetasOf(pend, kind)[t]);
    }
  }

  lemma MixedShared(pend: Pend, size: nat, trunk: set<Drv>)
    requires size > 0 && IsMixed(pend) && IsTrunk(Needs(pend, size), trunk)
    ensures "t" in trunk
  {
    assert MixedMeta("checks", "b", MetasOf(pend, "checks")["b"]) && MixedMeta("fuzz", "c", MetasOf(pend, "fuzz")["c"]);
    TwoKindsTrunk(pend, size, trunk, 0, "b", 2, "c", "t");
  }

  lemma MixedTrunk(pend: Pend, size: nat, trunk: set<Drv>)
    requires size > 0 && IsMixed(pend) && IsTrunk(Needs(pend, size), trunk)
    ensures "s" !in trunk && "a" !in trunk && "t" in trunk
  {
    MixedOneGroup(pend, "s");
    MixedOneGroup(pend, "a");
    OneGroupNotTrunk(pend, size, trunk, "misc", "s");
    OneGroupNotTrunk(pend, size, trunk, "misc", "a");
    MixedShared(pend, size, trunk);
  }

  lemma SameGroupSameCluster(names: seq<string>, x: string, y: string) returns (k: nat)
    requires x in names && y in names && CheckGroup(x) == CheckGroup(y)
    ensures k < |ClusterChecks(names)| && x in ClusterChecks(names)[k].targets && y in ClusterChecks(names)[k].targets
  {
    ChecksConserve(names);
    assert x in multiset(names) && y in multiset(names);
    k := ListedTarget(ClusterChecks(names), x);
    var j := ListedTarget(ClusterChecks(names), y);
    GroupIndex(names, k, x);
    GroupIndex(names, j, y);
  }

  lemma MixedWants()
    ensures Wanted(MixedDeps, {"a"}, "s") && Wanted(MixedDeps, {"b"}, "s")
  {
    assert LeadsTo(MixedDeps, {"a"}, ["a", "s"], "s");
    assert LeadsTo(MixedDeps, {"b"}, ["b", "s"], "s");
  }

  lemma MixedHeat(pend: Pend, size: nat, trunk: set<Drv>)
    requires size > 0 && IsMixed(pend) && IsTrunk(Needs(pend, size), trunk)
    ensures IsHot(MetasOf(pend, "checks"), trunk, "b") && !IsHot(MetasOf(pend, "checks"), trunk, "a")
  {
    MixedTrunk(pend, size, trunk);
    HotOverlaps(MetasOf(pend, "checks"), trunk, "a");
    HotOverlaps(MetasOf(pend, "checks"), trunk, "b");
  }

  lemma MixedRaces(pend: Pend, size: nat, trunk: set<Drv>, comps: seq<Component>, out: Outputs) returns (i: nat, j: nat)
    requires size > 0 && IsMixed(pend) && IsPlan(pend, size, trunk, comps, out)
    ensures HalvesRace(MixedDeps, CiPlan(pend, size, trunk, out.warm), i, j, "s")
  {
    MixedClosed(pend);
    MixedWants();
    MixedTrunk(pend, size, trunk);
    MixedHeat(pend, size, trunk);
    MiscGroup();
    var k := SameGroupSameCluster(Names(pend, "checks"), "a", "b");
    i, j := MixedClusterRaces(MixedDeps, MixedRank, pend, size, trunk, comps, out, 0, k, "b", "a", "s");
  }

  /** On this evaluation, whatever the shard size, the two jobs of the misc cluster both build `s` in some run. */
  lemma MixedEvaluationRaces(size: nat, trunk: set<Drv>, comps: seq<Component>, out: Outputs) returns (i: nat, j: nat)
    requires size > 0 && IsPlan(Pending(Mixed()), size, trunk, comps, out)
    ensures EntriesClosed(MixedDeps, Pending(Mixed())) && Acyclic(MixedDeps, MixedRank)
    ensures HalvesRace(MixedDeps, CiPlan(Pending(Mixed()), size, trunk, out.warm), i, j, "s")
  {
    MixedIs();
    MixedClosed(Pending(Mixed()));
    i, j := MixedRaces(Pending(Mixed()), size, trunk, comps, out);
  }
}

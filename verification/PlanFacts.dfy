/** What `build_outputs` emits, told from the evaluation results alone: which matrix every entry is in, under which
    name and with which drv, and which drvs are trunk. */
module PlanFacts {

  import opened Options
  import opened Ordering
  import opened Trunk
  import opened Clusters
  import opened FormalShards
  import opened Matrix
  import opened ClusterFacts
  import opened Pipeline
  import opened SplitRace

  // ----- which entries are pending -----

  /** The attr of entry `t` of a kind; an attr without a dot is an entry with no name. */
  predicate AttrIs(attr: string, kind: Kind, t: string)
  {
    attr == kind + "." + t || (t == "" && attr == kind)
  }

  /** Result i is the last one for the entry that is not cached. */
  ghost predicate Latest(results: seq<EvalResult>, kind: Kind, t: string, i: nat)
  {
    && i < |results| && !results[i].cached && AttrIs(results[i].attr, kind, t)
    && forall j :: i < j < |results| ==> results[j].cached || !AttrIs(results[j].attr, kind, t)
  }

  lemma SplitAttrExactly(attr: string, kind: Kind, t: string)
    requires '.' !in kind
    ensures SplitAttr(attr) == (kind, t) <==> AttrIs(attr, kind, t)
  {
    if attr == kind + "." + t {
      SplitAttrJoined(kind, t);
    }
  }

  lemma LatestIsHit(results: seq<EvalResult>, kind: Kind, t: string, i: nat)
    requires '.' !in kind
    ensures Latest(results, kind, t, i) <==> LastHit(results, kind, t, i)
  {
    forall j | 0 <= j < |results|
      ensures Hits(results[j], kind, t) <==> !results[j].cached && AttrIs(results[j].attr, kind, t)
    {
      SplitAttrExactly(results[j].attr, kind, t);
    }
  }

  /** An entry is pending exactly if it has a result that is not cached, and the last such result describes it. */
  lemma PendingLatest(results: seq<EvalResult>, kind: Kind, t: string)
    requires '.' !in kind
    ensures t in MetasOf(Pending(results), kind) <==> exists i: nat :: Latest(results, kind, t, i)
    ensures forall i: nat :: Latest(results, kind, t, i) ==> Describes(MetasOf(Pending(results), kind), t, results[i])
  {
    PendingExact(results, kind, t);
    forall i: nat
      ensures Latest(results, kind, t, i) <==> LastHit(results, kind, t, i)
    {
      LatestIsHit(results, kind, t, i);
    }
    forall i: nat | Latest(results, kind, t, i)
      ensures Describes(MetasOf(Pending(results), kind), t, results[i])
    {
      assert LastHit(results, kind, t, i);
      NeededAre(results[i]);
    }
  }

  ghost predicate Describes(metas: Metas, t: string, r: EvalResult)
  {
    t in metas && metas[t].drv == r.drv && metas[t].heap == r.heap && forall d :: d in metas[t].needed <==> d in r.needed
  }

  lemma NeededAre(r: EvalResult)
    ensures forall d :: d in AsMeta(r).needed <==> d in r.needed
  {
  }

  // ----- the halves of a clustering -----

  /** `e` is what is left of a cluster when only the members that pass are kept. */
  ghost predicate IsPart(cs: seq<Cluster>, keep: string -> bool, e: Cluster)
  {
    e.targets != [] && exists c :: c in cs && e == Cluster(c.name, Filter(c.targets, keep))
  }

  lemma {:induction false} FilterAlike(ts: seq<string>, f: string -> bool, g: string -> bool)
    requires forall t :: f(t) <==> g(t)
    ensures Filter(ts, f) == Filter(ts, g)
  {
    if ts != [] {
      FilterAlike(ts[1..], f, g);
    }
  }

  lemma {:induction false} InGated(cs: seq<Cluster>, metas: Metas, trunk: set<Drv>, keep: string -> bool, e: Cluster)
    requires forall t :: keep(t) <==> IsHot(metas, trunk, t)
    ensures e in Gated(cs, metas, trunk) <==> IsPart(cs, keep, e)
  {
    if cs != [] {
      var last := |cs| - 1;
      InGated(cs[..last], metas, trunk, keep, e);
      FilterAlike(cs[last].targets, keep, t => IsHot(metas, trunk, t));
      assert cs == cs[..last] + [cs[last]];
      assert forall c :: c in cs <==> c in cs[..last] || c == cs[last];
    }
  }

  lemma {:induction false} InNowait(cs: seq<Cluster>, metas: Metas, trunk: set<Drv>, keep: string -> bool, e: Cluster)
    requires forall t :: keep(t) <==> !IsHot(metas, trunk, t)
    ensures e in Nowait(cs, metas, trunk) <==> IsPart(cs, keep, e)
  {
    if cs != [] {
      var last := |cs| - 1;
      InNowait(cs[..last], metas, trunk, keep, e);
      FilterAlike(cs[last].targets, keep, t => !IsHot(metas, trunk, t));
      assert cs == cs[..last] + [cs[last]];
      assert forall c :: c in cs <==> c in cs[..last] || c == cs[last];
    }
  }

  lemma PartFrom(cs: seq<Cluster>, keep: string -> bool, e: Cluster) returns (c: Cluster)
    requires IsPart(cs, keep, e)
    ensures c in cs && c.name == e.name && forall t :: t in e.targets <==> t in c.targets && keep(t)
  {
    c :| c in cs && e == Cluster(c.name, Filter(c.targets, keep));
    forall t
      ensures t in e.targets <==> t in c.targets && keep(t)
    {
      KeptNames(c.targets, keep, t);
    }
  }

  lemma PartOf(cs: seq<Cluster>, keep: string -> bool, c: Cluster, t: string, u: string)
    requires c in cs && t in c.targets && keep(t) && u in c.targets && keep(u)
    ensures IsPart(cs, keep, Cluster(c.name, Filter(c.targets, keep)))
    ensures t in Filter(c.targets, keep) && u in Filter(c.targets, keep)
  {
    KeptNames(c.targets, keep, t);
    KeptNames(c.targets, keep, u);
  }

  /** A half keeps each cluster's name and the members that pass, and keeps together what was together. */
  lemma PartHolds(cs: seq<Cluster>, keep: string -> bool, parts: seq<Cluster>, n: string, t: string, u: string)
    requires forall e :: e in parts <==> IsPart(cs, keep, e)
    ensures InCluster(parts, n, t) <==> InCluster(cs, n, t) && keep(t)
    ensures Together(parts, t, u) <==> Together(cs, t, u) && keep(t) && keep(u)
  {
    if e :| e in parts && e.name == n && t in e.targets { var c := PartFrom(cs, keep, e); }
    if e :| e in parts && t in e.targets && u in e.targets { var c := PartFrom(cs, keep, e); }
    if keep(t) {
      if c :| c in cs && c.name == n && t in c.targets { PartOf(cs, keep, c, t, t); }
      if keep(u) {
        if c :| c in cs && t in c.targets && u in c.targets { PartOf(cs, keep, c, t, u); }
      }
    }
  }

  // ----- what a matrix lists -----

  /** A matrix has an entry called `n` that builds `t` from `d`. */
  ghost predicate Lists(entries: seq<Entry>, n: string, t: string, d: Drv)
  {
    exists e, j :: e in entries && e.name == n && 0 <= j < |e.targets| && j < |e.drvs| && e.targets[j] == t && e.drvs[j] == d
  }

  /** One entry builds both. */
  ghost predicate OneJob(entries: seq<Entry>, t: string, u: string)
  {
    exists e :: e in entries && t in e.targets && u in e.targets
  }

  lemma AttachedLists(cs: seq<Cluster>, metas: Metas, n: string, t: string, d: Drv)
    requires Known(cs, metas)
    ensures Lists(AttachDrvs(cs, metas), n, t, d) <==> InCluster(cs, n, t) && t in metas && metas[t].drv == d
  {
    var es := AttachDrvs(cs, metas);
    if e, j :| e in es && e.name == n && 0 <= j < |e.targets| && j < |e.drvs| && e.targets[j] == t && e.drvs[j] == d {
      var i :| 0 <= i < |es| && es[i] == e;
      AttachedHas(cs[i], metas, e, j);
    }
    if InCluster(cs, n, t) && t in metas && metas[t].drv == d {
      var c :| c in cs && c.name == n && t in c.targets;
      var i :| 0 <= i < |cs| && cs[i] == c;
      var j :| 0 <= j < |c.targets| && c.targets[j] == t;
      assert es[i] in es && es[i].targets[j] == t && es[i].drvs[j] == d;
    }
  }

  lemma AttachedHas(c: Cluster, metas: Metas, e: Entry, j: nat)
    requires (forall t :: t in c.targets ==> t in metas) && e == Attach(c, metas) && j < |e.targets| && j < |e.drvs|
    ensures e.name == c.name && e.targets[j] in c.targets && e.drvs[j] == metas[e.targets[j]].drv
  {
  }

  lemma AttachedTogether(cs: seq<Cluster>, metas: Metas, t: string, u: string)
    requires Known(cs, metas)
    ensures OneJob(AttachDrvs(cs, metas), t, u) <==> Together(cs, t, u)
  {
    var es := AttachDrvs(cs, metas);
    if e :| e in es && t in e.targets && u in e.targets {
      var i :| 0 <= i < |es| && es[i] == e;
      assert cs[i] in cs;
    }
    if c :| c in cs && t in c.targets && u in c.targets {
      var i :| 0 <= i < |cs| && cs[i] == c;
      assert es[i] in es;
    }
  }

  // ----- one kind -----

  /** Checks and proofs are split by whether an entry needs a trunk drv. */
  lemma SplitLists(pend: Pend, size: nat, trunk: set<Drv>, kind: Kind, n: string, t: string, u: string, d: Drv)
    requires size > 0 && (kind == "checks" || kind == "formal")
    ensures var cs, metas := ClustersOf(pend, kind, size), MetasOf(pend, kind);
            && (Lists(GatedEntries(pend, size, trunk, kind), n, t, d) <==> InCluster(cs, n, t) && t in metas && metas[t].drv == d && IsHot(metas, trunk, t))
            && (Lists(NowaitEntries(pend, size, trunk, kind), n, t, d) <==> InCluster(cs, n, t) && t in metas && metas[t].drv == d && !IsHot(metas, trunk, t))
            && (OneJob(GatedEntries(pend, size, trunk, kind), t, u) <==> Together(cs, t, u) && IsHot(metas, trunk, t) && IsHot(metas, trunk, u))
            && (OneJob(NowaitEntries(pend, size, trunk, kind), t, u) <==> Together(cs, t, u) && !IsHot(metas, trunk, t) && !IsHot(metas, trunk, u))
  {
    var cs, metas := ClustersOf(pend, kind, size), MetasOf(pend, kind);
    ClustersKnown(pend, kind, size);
    PartitionKnown(cs, metas, trunk);
    var gated, nowait := Gated(cs, metas, trunk), Nowait(cs, metas, trunk);
    AttachedLists(gated, metas, n, t, d);
    AttachedLists(nowait, metas, n, t, d);
    AttachedTogether(gated, metas, t, u);
    AttachedTogether(nowait, metas, t, u);
    HalvesHold(cs, metas, trunk, n, t, u);
  }

  lemma HalvesHold(cs: seq<Cluster>, metas: Metas, trunk: set<Drv>, n: string, t: string, u: string)
    ensures InCluster(Gated(cs, metas, trunk), n, t) <==> InCluster(cs, n, t) && IsHot(metas, trunk, t)
    ensures InCluster(Nowait(cs, metas, trunk), n, t) <==> InCluster(cs, n, t) && !IsHot(metas, trunk, t)
    ensures Together(Gated(cs, metas, trunk), t, u) <==> Together(cs, t, u) && IsHot(metas, trunk, t) && IsHot(metas, trunk, u)
    ensures Together(Nowait(cs, metas, trunk), t, u) <==> Together(cs, t, u) && !IsHot(metas, trunk, t) && !IsHot(metas, trunk, u)
  {
    var hot, cold := (x: string) => IsHot(metas, trunk, x), (x: string) => !IsHot(metas, trunk, x);
    forall e
      ensures e in Gated(cs, metas, trunk) <==> IsPart(cs, hot, e)
      ensures e in Nowait(cs, metas, trunk) <==> IsPart(cs, cold, e)
    {
      InGated(cs, metas, trunk, hot, e);
      InNowait(cs, metas, trunk, cold, e);
    }
    PartHolds(cs, hot, Gated(cs, metas, trunk), n, t, u);
    PartHolds(cs, cold, Nowait(cs, metas, trunk), n, t, u);
  }

  /** The other kinds have one matrix, whatever their entries need. */
  lemma WholeLists(pend: Pend, size: nat, trunk: set<Drv>, kind: Kind, n: string, t: string, u: string, d: Drv)
    requires size > 0 && (kind == "fuzz" || kind == "vm-test" || kind == "coverage")
    ensures var cs, metas := ClustersOf(pend, kind, size), MetasOf(pend, kind);
            && (Lists(GatedEntries(pend, size, trunk, kind), n, t, d) <==> InCluster(cs, n, t) && t in metas && metas[t].drv == d)
            && (OneJob(GatedEntries(pend, size, trunk, kind), t, u) <==> Together(cs, t, u))
  {
    var cs, metas := ClustersOf(pend, kind, size), MetasOf(pend, kind);
    ClustersKnown(pend, kind, size);
    PartitionKnown(cs, metas, trunk);
    AttachedLists(cs, metas, n, t, d);
    AttachedTogether(cs, metas, t, u);
  }

  // ----- clusters, from the results -----

  predicate IsMatrixKind(kind: Kind)
  {
    kind == "checks" || kind == "formal" || kind == "fuzz" || kind == "vm-test" || kind == "coverage"
  }

  ghost predicate IsPending(results: seq<EvalResult>, kind: Kind, t: string)
  {
    exists i: nat :: Latest(results, kind, t, i)
  }

  /** A pending proof that can share a job: no Kani proof, and it asks for at most half of the 8192 MB. */
  ghost predicate Shares(results: seq<EvalResult>, t: string)
  {
    exists i: nat :: Latest(results, "formal", t, i) && !IsKaniName(t) && !(results[i].heap.Some? && results[i].heap.value > 4096)
  }

  /** The proofs that share jobs, in order, and how many jobs they get. */
  ghost predicate Dealt(results: seq<EvalResult>, size: nat, light: seq<string>, count: nat)
  {
    && Sorted(light, StrLe) && Distinct(light) && (forall t :: t in light <==> Shares(results, t))
    && JustEnough(|light|, size, count)
  }

  /** The name of an entry's cluster. */
  ghost predicate Called(light: seq<string>, count: nat, kind: Kind, t: string, n: string)
  {
    if kind == "checks" then CheckCluster(t, n)
    else if kind == "formal" && t in light then DealtTo(light, count, t, n)
    else if kind == "coverage" && IsUnit(t) then n == "unit"
    else n == t
  }

  ghost predicate SameCluster(light: seq<string>, count: nat, kind: Kind, t: string, u: string)
  {
    || t == u
    || (kind == "checks" && exists g :: CheckCluster(t, g) && CheckCluster(u, g))
    || (kind == "formal" && DealtAlike(light, count, t, u))
    || (kind == "coverage" && IsUnit(t) && IsUnit(u))
  }

  lemma DealtExists(results: seq<EvalResult>, size: nat) returns (light: seq<string>, count: nat)
    requires size > 0
    ensures Dealt(results, size, light, count)
  {
    var pend := Pending(results);
    var names, heap := Names(pend, "formal"), Heaps(MetasOf(pend, "formal"));
    light := LightNames(names, heap);
    count := if light == [] then 0 else CeilDiv(|light|, size);
    if light != [] { CountExactly(|light|, size, count); }
    LightDistinct(names, heap);
    StrTotalOrder();
    SortSorts(Filter(Filter(names, x => !IsKani(x)), x => !IsHeavy(heap, x)), StrLe);
    forall t
      ensures t in light <==> Shares(results, t)
    {
      FormalNames(names, heap, t);
      SharesIs(results, t);
    }
  }

  lemma SharesIs(results: seq<EvalResult>, t: string)
    ensures Shares(results, t) <==> t in Names(Pending(results), "formal") && IsLight(Heaps(MetasOf(Pending(results), "formal")), t)
  {
    PendingLatest(results, "formal", t);
  }

  lemma DealtIsLight(results: seq<EvalResult>, size: nat, light: seq<string>, count: nat)
    requires Dealt(results, size, light, count)
    ensures LightList(Names(Pending(results), "formal"), Heaps(MetasOf(Pending(results), "formal")), light)
  {
    forall t
      ensures t in light <==> t in Names(Pending(results), "formal") && IsLight(Heaps(MetasOf(Pending(results), "formal")), t)
    {
      SharesIs(results, t);
    }
  }

  lemma ListedNames(results: seq<EvalResult>, kind: Kind, t: string)
    requires '.' !in kind
    ensures t in Names(Pending(results), kind) <==> IsPending(results, kind, t)
  {
    PendingLatest(results, kind, t);
  }

  lemma FormalCalled(names: seq<string>, heap: map<string, Option<int>>, size: nat, light: seq<string>, count: nat, n: string, t: string)
    requires size > 0 && Distinct(names) && LightList(names, heap, light) && JustEnough(|light|, size, count)
    ensures InCluster(ClusterFormal(names, size, heap), n, t) <==> t in names && Called(light, count, "formal", t, n)
  {
    FormalNamed(names, size, heap, light, count, n, t);
    assert t in names ==> (t in light <==> IsLight(heap, t));
  }

  lemma ChecksCalled(names: seq<string>, light: seq<string>, count: nat, n: string, t: string)
    ensures InCluster(ClusterChecks(names), n, t) <==> t in names && Called(light, count, "checks", t, n)
  {
    ChecksNamed(names, n, t);
  }

  lemma CoverageCalled(names: seq<string>, light: seq<string>, count: nat, n: string, t: string)
    ensures InCluster(ClusterCoverage(names), n, t) <==> t in names && Called(light, count, "coverage", t, n)
  {
    CoverageNamed(names, n, t);
  }

  lemma AloneCalled(names: seq<string>, light: seq<string>, count: nat, kind: Kind, n: string, t: string)
    requires kind == "fuzz" || kind == "vm-test"
    ensures InCluster(Singletons(names), n, t) <==> t in names && Called(light, count, kind, t, n)
  {
    SortedHas(names, t);
    SinglesNamed(Sort(names, StrLe), n, t);
  }

  lemma SortedHas(names: seq<string>, t: string)
    ensures t in Sort(names, StrLe) <==> t in names
  {
    assert t in names <==> t in multiset(names);
    assert t in Sort(names, StrLe) <==> t in multiset(Sort(names, StrLe));
  }

  /** Every pending entry is in a cluster of its kind, under the name the results give it. */
  lemma ClustersCalled(results: seq<EvalResult>, size: nat, light: seq<string>, count: nat, kind: Kind, n: string, t: string)
    requires size > 0 && Dealt(results, size, light, count) && IsMatrixKind(kind)
    ensures InCluster(ClustersOf(Pending(results), kind, size), n, t) <==> IsPending(results, kind, t) && Called(light, count, kind, t, n)
  {
    ListedNames(results, kind, t);
    if kind == "checks" {
      ChecksCalled(Names(Pending(results), "checks"), light, count, n, t);
    } else if kind == "formal" {
      DealtIsLight(results, size, light, count);
      FormalCalled(Names(Pending(results), "formal"), Heaps(MetasOf(Pending(results), "formal")), size, light, count, n, t);
    } else {
      OthersCalled(Pending(results), size, light, count, kind, n, t);
    }
  }

  lemma OthersCalled(pend: Pend, size: nat, light: seq<string>, count: nat, kind: Kind, n: string, t: string)
    requires size > 0 && (kind == "fuzz" || kind == "vm-test" || kind == "coverage")
    ensures InCluster(ClustersOf(pend, kind, size), n, t) <==> t in Names(pend, kind) && Called(light, count, kind, t, n)
  {
    if kind == "coverage" {
      CoverageCalled(Names(pend, "coverage"), light, count, n, t);
    } else if kind == "fuzz" {
      AloneCalled(Names(pend, "fuzz"), light, count, "fuzz", n, t);
    } else {
      AloneCalled(Names(pend, "vm-test"), light, count, "vm-test", n, t);
    }
  }

  lemma FormalAlike(names: seq<string>, heap: map<string, Option<int>>, size: nat, light: seq<string>, count: nat, t: string, u: string)
    requires size > 0 && Distinct(names) && LightList(names, heap, light) && JustEnough(|light|, size, count) && t in names && u in names
    ensures Together(ClusterFormal(names, size, heap), t, u) <==> SameCluster(light, count, "formal", t, u)
  {
    FormalTogether(names, size, heap, light, count, t, u);
  }

  lemma ChecksAlike(names: seq<string>, light: seq<string>, count: nat, t: string, u: string)
    requires t in names && u in names
    ensures Together(ClusterChecks(names), t, u) <==> SameCluster(light, count, "checks", t, u)
  {
    ChecksTogether(names, t, u);
    CheckGroupExactly(t, CheckGroup(t));
  }

  lemma CoverageAlike(names: seq<string>, light: seq<string>, count: nat, t: string, u: string)
    requires t in names && u in names
    ensures Together(ClusterCoverage(names), t, u) <==> SameCluster(light, count, "coverage", t, u)
  {
    CoverageTogether(names, t, u);
  }

  lemma AloneAlike(names: seq<string>, light: seq<string>, count: nat, kind: Kind, t: string, u: string)
    requires (kind == "fuzz" || kind == "vm-test") && t in names
    ensures Together(Singletons(names), t, u) <==> SameCluster(light, count, kind, t, u)
  {
    SortedHas(names, t);
    SinglesTogether(Sort(names, StrLe), t, u);
  }

  /** The entries of a kind that one cluster holds. */
  ghost predicate Grouped(results: seq<EvalResult>, light: seq<string>, count: nat, kind: Kind, t: string, u: string)
  {
    IsPending(results, kind, t) && IsPending(results, kind, u) && SameCluster(light, count, kind, t, u)
  }

  lemma ClustersTogether(results: seq<EvalResult>, size: nat, light: seq<string>, count: nat, kind: Kind, t: string, u: string)
    requires size > 0 && Dealt(results, size, light, count) && IsMatrixKind(kind)
    ensures Together(ClustersOf(Pending(results), kind, size), t, u) <==> Grouped(results, light, count, kind, t, u)
  {
    ListedNames(results, kind, t);
    ListedNames(results, kind, u);
    var names := Names(Pending(results), kind);
    ClustersKnown(Pending(results), kind, size);
    KnownTogether(ClustersOf(Pending(results), kind, size), MetasOf(Pending(results), kind), t, u);
    if t in names && u in names {
      if kind == "checks" {
        ChecksAlike(names, light, count, t, u);
      } else if kind == "formal" {
        DealtIsLight(results, size, light, count);
        FormalAlike(names, Heaps(MetasOf(Pending(results), kind)), size, light, count, t, u);
      } else if kind == "coverage" {
        CoverageAlike(names, light, count, t, u);
      } else {
        AloneAlike(names, light, count, kind, t, u);
      }
    }
  }

  lemma KnownTogether(cs: seq<Cluster>, metas: Metas, t: string, u: string)
    requires Known(cs, metas)
    ensures Together(cs, t, u) ==> t in metas && u in metas
  {
    if c :| c in cs && t in c.targets && u in c.targets {
      var i :| 0 <= i < |cs| && cs[i] == c;
      assert t in cs[i].targets && u in cs[i].targets;
    }
  }

  // ----- the trunk, from the results -----

  /** The entry is pending and cannot be built without `d`. */
  ghost predicate Wants(results: seq<EvalResult>, kind: Kind, t: string, d: Drv)
  {
    exists i: nat :: Latest(results, kind, t, i) && d in results[i].needed
  }

  /** Two entries in different clusters want `d`. */
  ghost predicate SharedNeed(results: seq<EvalResult>, light: seq<string>, count: nat, d: Drv)
  {
    exists k, t, l, u :: InTwo(results, light, count, d, k, t, l, u)
  }

  ghost predicate InTwo(results: seq<EvalResult>, light: seq<string>, count: nat, d: Drv, k: Kind, t: string, l: Kind, u: string)
  {
    && IsMatrixKind(k) && Wants(results, k, t, d) && IsMatrixKind(l) && Wants(results, l, u, d)
    && !(k == l && SameCluster(light, count, k, t, u))
  }

  lemma WantsIs(results: seq<EvalResult>, kind: Kind, t: string, d: Drv)
    requires '.' !in kind
    ensures Wants(results, kind, t, d) <==> t in MetasOf(Pending(results), kind) && d in MetasOf(Pending(results), kind)[t].needed
  {
    PendingLatest(results, kind, t);
  }

  /** A name is in one cluster only. */
  lemma {:induction false} OneCluster(cs: seq<Cluster>, names: seq<string>, i: nat, j: nat, t: string)
    requires Conserves(cs, names) && Distinct(names) && i < |cs| && j < |cs| && t in cs[i].targets && t in cs[j].targets
    ensures i == j
  {
    if i < j { TwiceListed(cs, i, j, t); }
    if j < i { TwiceListed(cs, j, i, t); }
    MultiplicityOne(names, t);
  }

  lemma {:induction false} TwiceListed(cs: seq<Cluster>, i: nat, j: nat, t: string)
    requires i < j < |cs| && t in cs[i].targets && t in cs[j].targets
    ensures multiset(AllTargets(cs))[t] >= 2
  {
    if i == 0 {
      TargetListed(cs[1..], j - 1, t);
      assert t in multiset(cs[0].targets) && t in multiset(AllTargets(cs[1..]));
    } else {
      TwiceListed(cs[1..], i - 1, j - 1, t);
    }
  }

  lemma KindIndex(kind: Kind) returns (m: nat)
    requires IsMatrixKind(kind)
    ensures m < |MATRIX_KINDS| && MATRIX_KINDS[m] == kind
  {
    m := if kind == "checks" then 0 else if kind == "formal" then 1 else if kind == "fuzz" then 2 else if kind == "vm-test" then 3 else 4;
  }

  lemma KindsAre(m: nat, n: nat)
    requires m < |MATRIX_KINDS| && n < |MATRIX_KINDS|
    ensures IsMatrixKind(MATRIX_KINDS[m]) && '.' !in MATRIX_KINDS[m] && (MATRIX_KINDS[m] == MATRIX_KINDS[n] ==> m == n)
  {
  }

  lemma NotTogether(cs: seq<Cluster>, names: seq<string>, i: nat, j: nat, t: string, u: string)
    requires Conserves(cs, names) && Distinct(names) && i < |cs| && j < |cs| && i != j && t in cs[i].targets && u in cs[j].targets
    ensures !Together(cs, t, u)
  {
    if c :| c in cs && t in c.targets && u in c.targets {
      var k :| 0 <= k < |cs| && cs[k] == c;
      OneCluster(cs, names, i, k, t);
      OneCluster(cs, names, j, k, u);
    }
  }

  lemma BlocksApart(results: seq<EvalResult>, size: nat, light: seq<string>, count: nat, kind: Kind, k: nat, t: string, l: nat, u: string)
    requires size > 0 && Dealt(results, size, light, count) && IsMatrixKind(kind) && k != l
    requires var cs := ClustersOf(Pending(results), kind, size);
             k < |cs| && l < |cs| && t in cs[k].targets && u in cs[l].targets
    ensures !Grouped(results, light, count, kind, t, u)
  {
    ClustersConserve(Pending(results), kind, size);
    NotTogether(ClustersOf(Pending(results), kind, size), Names(Pending(results), kind), k, l, t, u);
    ClustersTogether(results, size, light, count, kind, t, u);
  }

  lemma TrunkIsShared(results: seq<EvalResult>, size: nat, light: seq<string>, count: nat, i: nat, j: nat, d: Drv)
    requires size > 0 && Dealt(results, size, light, count) && i < j < |Needs(Pending(results), size)|
    requires d in Needs(Pending(results), size)[i].drvs && d in Needs(Pending(results), size)[j].drvs
    ensures SharedNeed(results, light, count, d)
  {
    var pend := Pending(results);
    var m, k, t := NeedComesFrom(pend, size, i, d);
    var n, l, u := NeedComesFrom(pend, size, j, d);
    KindsAre(m, n);
    KindsAre(n, m);
    if m == n {
      BlocksApart(results, size, light, count, MATRIX_KINDS[m], k, t, l, u);
    }
    FoundInTwo(results, light, count, d, MATRIX_KINDS[m], t, MATRIX_KINDS[n], u);
  }

  lemma FoundInTwo(results: seq<EvalResult>, light: seq<string>, count: nat, d: Drv, k: Kind, t: string, l: Kind, u: string)
    requires IsMatrixKind(k) && IsMatrixKind(l) && '.' !in k && '.' !in l && (k == l ==> !Grouped(results, light, count, k, t, u))
    requires t in MetasOf(Pending(results), k) && d in MetasOf(Pending(results), k)[t].needed
    requires u in MetasOf(Pending(results), l) && d in MetasOf(Pending(results), l)[u].needed
    ensures SharedNeed(results, light, count, d)
  {
    WantsIs(results, k, t, d);
    WantsIs(results, l, u, d);
    PendingLatest(results, k, t);
    PendingLatest(results, l, u);
    assert InTwo(results, light, count, d, k, t, l, u);
  }

  /** A drv that targets of two clusters of one kind need is trunk. */
  lemma TwoClustersTrunk(pend: Pend, size: nat, trunk: set<Drv>, m: nat, t: string, u: string, d: Drv)
    requires size > 0 && IsTrunk(Needs(pend, size), trunk) && m < |MATRIX_KINDS|
    requires t in MetasOf(pend, MATRIX_KINDS[m]) && d in MetasOf(pend, MATRIX_KINDS[m])[t].needed
    requires u in MetasOf(pend, MATRIX_KINDS[m]) && d in MetasOf(pend, MATRIX_KINDS[m])[u].needed
    requires !Together(ClustersOf(pend, MATRIX_KINDS[m], size), t, u)
    ensures d in trunk
  {
    var k := TargetHeld(pend, size, MATRIX_KINDS[m], t);
    var l := TargetHeld(pend, size, MATRIX_KINDS[m], u);
    KindNeedsAt(pend, size, m);
    InTwoClusters(Needs(pend, size), trunk, |NeedsUpTo(pend, size, m)|, ClustersOf(pend, MATRIX_KINDS[m], size), MetasOf(pend, MATRIX_KINDS[m]), k, t, l, u, d);
  }

  lemma InTwoClusters(needs: seq<Need>, trunk: set<Drv>, b: nat, cs: seq<Cluster>, metas: Metas, k: nat, t: string, l: nat, u: string, d: Drv)
    requires IsTrunk(needs, trunk) && Known(cs, metas) && NeedsAt(needs, b, cs, metas) && !Together(cs, t, u)
    requires k < |cs| && l < |cs| && t in cs[k].targets && u in cs[l].targets
    requires t in metas && u in metas && d in metas[t].needed && d in metas[u].needed
    ensures d in trunk
  {
    assert cs[k] in cs;
    assert k != l;
    assert d in needs[b + k].drvs && d in needs[b + l].drvs;
    assert Shared(needs, d);
  }

  lemma SharedIsTrunk(results: seq<EvalResult>, size: nat, light: seq<string>, count: nat, trunk: set<Drv>,
                      d: Drv, k: Kind, t: string, l: Kind, u: string)
    requires size > 0 && Dealt(results, size, light, count) && IsTrunk(Needs(Pending(results), size), trunk)
    requires InTwo(results, light, count, d, k, t, l, u)
    ensures d in trunk
  {
    var pend := Pending(results);
    var m := KindIndex(k);
    var n := KindIndex(l);
    KindsAre(m, n);
    KindsAre(n, m);
    WantsIs(results, k, t, d);
    WantsIs(results, l, u, d);
    if m < n {
      TwoKindsTrunk(pend, size, trunk, m, t, n, u, d);
    } else if n < m {
      TwoKindsTrunk(pend, size, trunk, n, u, m, t, d);
    } else {
      ClustersTogether(results, size, light, count, k, t, u);
      TwoClustersTrunk(pend, size, trunk, m, t, u, d);
    }
  }

  /** A drv is trunk exactly if pending entries of two clusters, of one kind or of two, cannot be built without it. */
  lemma TrunkExactly(results: seq<EvalResult>, size: nat, light: seq<string>, count: nat, trunk: set<Drv>, d: Drv)
    requires size > 0 && Dealt(results, size, light, count) && IsTrunk(Needs(Pending(results), size), trunk)
    ensures d in trunk <==> SharedNeed(results, light, count, d)
  {
    var needs := Needs(Pending(results), size);
    if Shared(needs, d) {
      var i, j :| 0 <= i < j < |needs| && d in needs[i].drvs && d in needs[j].drvs;
      TrunkIsShared(results, size, light, count, i, j, d);
    }
    if k, t, l, u :| InTwo(results, light, count, d, k, t, l, u) {
      SharedIsTrunk(results, size, light, count, trunk, d, k, t, l, u);
    }
  }

  // ----- the matrices, from the results -----

  /** Result i must wait for the warm stage: it needs a drv that two clusters need. */
  ghost predicate MustWait(results: seq<EvalResult>, light: seq<string>, count: nat, i: nat)
    requires i < |results|
  {
    exists d :: d in results[i].needed && SharedNeed(results, light, count, d)
  }

  /** Entry `t` is pending with drv `v` and belongs to the job called `n`. */
  ghost predicate Due(results: seq<EvalResult>, light: seq<string>, count: nat, kind: Kind, n: string, t: string, v: Drv, i: nat)
  {
    Latest(results, kind, t, i) && results[i].drv == v && Called(light, count, kind, t, n)
  }

  ghost predicate IsDue(results: seq<EvalResult>, light: seq<string>, count: nat, kind: Kind, n: string, t: string, v: Drv)
  {
    exists i: nat :: Due(results, light, count, kind, n, t, v, i)
  }

  lemma HotExactly(results: seq<EvalResult>, size: nat, light: seq<string>, count: nat, trunk: set<Drv>, kind: Kind, t: string, i: nat)
    requires size > 0 && Dealt(results, size, light, count) && IsTrunk(Needs(Pending(results), size), trunk)
    requires '.' !in kind && Latest(results, kind, t, i)
    ensures IsHot(MetasOf(Pending(results), kind), trunk, t) <==> MustWait(results, light, count, i)
  {
    var metas := MetasOf(Pending(results), kind);
    PendingLatest(results, kind, t);
    assert Describes(metas, t, results[i]);
    HotOverlaps(metas, trunk, t);
    forall d
      ensures d in trunk <==> SharedNeed(results, light, count, d)
    {
      TrunkExactly(results, size, light, count, trunk, d);
    }
  }

  lemma DueExactly(results: seq<EvalResult>, size: nat, light: seq<string>, count: nat, kind: Kind, n: string, t: string, v: Drv)
    requires size > 0 && Dealt(results, size, light, count) && IsMatrixKind(kind) && '.' !in kind
    ensures IsDue(results, light, count, kind, n, t, v)
       <==> InCluster(ClustersOf(Pending(results), kind, size), n, t) && t in MetasOf(Pending(results), kind) && MetasOf(Pending(results), kind)[t].drv == v
  {
    ClustersCalled(results, size, light, count, kind, n, t);
    PendingLatest(results, kind, t);
    if i: nat :| Latest(results, kind, t, i) {
      assert Describes(MetasOf(Pending(results), kind), t, results[i]);
      assert Due(results, light, count, kind, n, t, v, i) || !(results[i].drv == v && Called(light, count, kind, t, n));
    }
  }

  /** `waits` says of every last result of an entry whether it must wait. */
  ghost predicate WaitIs(results: seq<EvalResult>, light: seq<string>, count: nat, kind: Kind, t: string, waits: bool)
  {
    forall i: nat :: Latest(results, kind, t, i) ==> MustWait(results, light, count, i) == waits
  }

  lemma HotIsWait(results: seq<EvalResult>, size: nat, light: seq<string>, count: nat, trunk: set<Drv>, kind: Kind, t: string)
    requires size > 0 && Dealt(results, size, light, count) && IsTrunk(Needs(Pending(results), size), trunk) && '.' !in kind
    ensures WaitIs(results, light, count, kind, t, IsHot(MetasOf(Pending(results), kind), trunk, t))
  {
    forall i: nat | Latest(results, kind, t, i)
      ensures MustWait(results, light, count, i) == IsHot(MetasOf(Pending(results), kind), trunk, t)
    {
      HotExactly(results, size, light, count, trunk, kind, t, i);
    }
  }

  /** Some result makes the entry due, and it must wait, or need not. */
  ghost predicate DueTo(results: seq<EvalResult>, light: seq<string>, count: nat, kind: Kind, n: string, t: string, v: Drv, waits: bool)
  {
    exists i: nat :: Due(results, light, count, kind, n, t, v, i) && MustWait(results, light, count, i) == waits
  }

  /** An entry that is due is in one half if it waits, and in the other if it does not. */
  lemma HalfPlaced(results: seq<EvalResult>, light: seq<string>, count: nat, kind: Kind, n: string, t: string, v: Drv, hot: bool, gated: bool, nowait: bool)
    requires WaitIs(results, light, count, kind, t, hot)
    requires gated <==> IsDue(results, light, count, kind, n, t, v) && hot
    requires nowait <==> IsDue(results, light, count, kind, n, t, v) && !hot
    ensures gated <==> DueTo(results, light, count, kind, n, t, v, true)
    ensures nowait <==> DueTo(results, light, count, kind, n, t, v, false)
  {
  }

  lemma ChecksPlaced(results: seq<EvalResult>, size: nat, light: seq<string>, count: nat, trunk: set<Drv>, n: string, t: string, v: Drv)
    requires size > 0 && Dealt(results, size, light, count) && IsTrunk(Needs(Pending(results), size), trunk)
    ensures Lists(GatedEntries(Pending(results), size, trunk, "checks"), n, t, v) <==> DueTo(results, light, count, "checks", n, t, v, true)
    ensures Lists(NowaitEntries(Pending(results), size, trunk, "checks"), n, t, v) <==> DueTo(results, light, count, "checks", n, t, v, false)
  {
    var pend := Pending(results);
    SplitLists(pend, size, trunk, "checks", n, t, t, v);
    DueExactly(results, size, light, count, "checks", n, t, v);
    HotIsWait(results, size, light, count, trunk, "checks", t);
    HalfPlaced(results, light, count, "checks", n, t, v, IsHot(MetasOf(pend, "checks"), trunk, t),
               Lists(GatedEntries(pend, size, trunk, "checks"), n, t, v), Lists(NowaitEntries(pend, size, trunk, "checks"), n, t, v));
  }

  lemma FormalPlaced(results: seq<EvalResult>, size: nat, light: seq<string>, count: nat, trunk: set<Drv>, n: string, t: string, v: Drv)
    requires size > 0 && Dealt(results, size, light, count) && IsTrunk(Needs(Pending(results), size), trunk)
    ensures Lists(GatedEntries(Pending(results), size, trunk, "formal"), n, t, v) <==> DueTo(results, light, count, "formal", n, t, v, true)
    ensures Lists(NowaitEntries(Pending(results), size, trunk, "formal"), n, t, v) <==> DueTo(results, light, count, "formal", n, t, v, false)
  {
    var pend := Pending(results);
    SplitLists(pend, size, trunk, "formal", n, t, t, v);
    DueExactly(results, size, light, count, "formal", n, t, v);
    HotIsWait(results, size, light, count, trunk, "formal", t);
    HalfPlaced(results, light, count, "formal", n, t, v, IsHot(MetasOf(pend, "formal"), trunk, t),
               Lists(GatedEntries(pend, size, trunk, "formal"), n, t, v), Lists(NowaitEntries(pend, size, trunk, "formal"), n, t, v));
  }

  lemma OthersPlaced(results: seq<EvalResult>, size: nat, light: seq<string>, count: nat, trunk: set<Drv>, n: string, t: string, v: Drv)
    requires size > 0 && Dealt(results, size, light, count)
    ensures Lists(GatedEntries(Pending(results), size, trunk, "fuzz"), n, t, v) <==> IsDue(results, light, count, "fuzz", n, t, v)
    ensures Lists(GatedEntries(Pending(results), size, trunk, "vm-test"), n, t, v) <==> IsDue(results, light, count, "vm-test", n, t, v)
    ensures Lists(GatedEntries(Pending(results), size, trunk, "coverage"), n, t, v) <==> IsDue(results, light, count, "coverage", n, t, v)
  {
    WholeLists(Pending(results), size, trunk, "fuzz", n, t, t, v);
    DueExactly(results, size, light, count, "fuzz", n, t, v);
    WholeLists(Pending(results), size, trunk, "vm-test", n, t, t, v);
    DueExactly(results, size, light, count, "vm-test", n, t, v);
    WholeLists(Pending(results), size, trunk, "coverage", n, t, t, v);
    DueExactly(results, size, light, count, "coverage", n, t, v);
  }

  /** Where every entry goes. A pending check or proof is in the nowait matrix if it needs no drv that two clusters
      need, and in the gated one otherwise; fuzz, vm-test and coverage entries are all in their one matrix. The job's
      name and the drv are those the results give. */
  lemma PlanPlaces(results: seq<EvalResult>, size: nat, light: seq<string>, count: nat, trunk: set<Drv>, comps: seq<Component>, out: Outputs,
                   n: string, t: string, v: Drv)
    requires size > 0 && Dealt(results, size, light, count) && IsPlan(Pending(results), size, trunk, comps, out)
    ensures Lists(out.checks, n, t, v) <==> DueTo(results, light, count, "checks", n, t, v, true)
    ensures Lists(out.checksNowait, n, t, v) <==> DueTo(results, light, count, "checks", n, t, v, false)
    ensures Lists(out.formal, n, t, v) <==> DueTo(results, light, count, "formal", n, t, v, true)
    ensures Lists(out.formalNowait, n, t, v) <==> DueTo(results, light, count, "formal", n, t, v, false)
    ensures Lists(out.fuzz, n, t, v) <==> IsDue(results, light, count, "fuzz", n, t, v)
    ensures Lists(out.vmTest, n, t, v) <==> IsDue(results, light, count, "vm-test", n, t, v)
    ensures Lists(out.coverage, n, t, v) <==> IsDue(results, light, count, "coverage", n, t, v)
  {
    ChecksPlaced(results, size, light, count, trunk, n, t, v);
    FormalPlaced(results, size, light, count, trunk, n, t, v);
    OthersPlaced(results, size, light, count, trunk, n, t, v);
  }

  /** The entry is pending and must, or need not, wait. */
  ghost predicate Stands(results: seq<EvalResult>, light: seq<string>, count: nat, kind: Kind, t: string, waits: bool)
  {
    exists i: nat :: Latest(results, kind, t, i) && MustWait(results, light, count, i) == waits
  }

  /** Two entries of one cluster are in one half if both wait, or neither does. */
  lemma HalfJobs(results: seq<EvalResult>, light: seq<string>, count: nat, kind: Kind, t: string, u: string, hot: bool, alsoHot: bool, gated: bool, nowait: bool)
    requires WaitIs(results, light, count, kind, t, hot) && WaitIs(results, light, count, kind, u, alsoHot)
    requires gated <==> Grouped(results, light, count, kind, t, u) && hot && alsoHot
    requires nowait <==> Grouped(results, light, count, kind, t, u) && !hot && !alsoHot
    ensures gated <==> Stands(results, light, count, kind, t, true) && Stands(results, light, count, kind, u, true) && SameCluster(light, count, kind, t, u)
    ensures nowait <==> Stands(results, light, count, kind, t, false) && Stands(results, light, count, kind, u, false) && SameCluster(light, count, kind, t, u)
  {
  }

  lemma GroupedJobs(results: seq<EvalResult>, size: nat, light: seq<string>, count: nat, trunk: set<Drv>, kind: Kind, t: string, u: string)
    requires size > 0 && Dealt(results, size, light, count) && (kind == "checks" || kind == "formal")
    ensures var metas := MetasOf(Pending(results), kind);
            && (OneJob(GatedEntries(Pending(results), size, trunk, kind), t, u)
                <==> Grouped(results, light, count, kind, t, u) && IsHot(metas, trunk, t) && IsHot(metas, trunk, u))
            && (OneJob(NowaitEntries(Pending(results), size, trunk, kind), t, u)
                <==> Grouped(results, light, count, kind, t, u) && !IsHot(metas, trunk, t) && !IsHot(metas, trunk, u))
  {
    SplitLists(Pending(results), size, trunk, kind, "", t, u, "");
    ClustersTogether(results, size, light, count, kind, t, u);
  }

  lemma SplitJobs(results: seq<EvalResult>, size: nat, light: seq<string>, count: nat, trunk: set<Drv>, kind: Kind, t: string, u: string)
    requires size > 0 && Dealt(results, size, light, count) && IsTrunk(Needs(Pending(results), size), trunk) && (kind == "checks" || kind == "formal")
    ensures OneJob(GatedEntries(Pending(results), size, trunk, kind), t, u)
       <==> Stands(results, light, count, kind, t, true) && Stands(results, light, count, kind, u, true) && SameCluster(light, count, kind, t, u)
    ensures OneJob(NowaitEntries(Pending(results), size, trunk, kind), t, u)
       <==> Stands(results, light, count, kind, t, false) && Stands(results, light, count, kind, u, false) && SameCluster(light, count, kind, t, u)
  {
    var metas := MetasOf(Pending(results), kind);
    GroupedJobs(results, size, light, count, trunk, kind, t, u);
    HotIsWait(results, size, light, count, trunk, kind, t);
    HotIsWait(results, size, light, count, trunk, kind, u);
    HalfJobs(results, light, count, kind, t, u, IsHot(metas, trunk, t), IsHot(metas, trunk, u),
             OneJob(GatedEntries(Pending(results), size, trunk, kind), t, u), OneJob(NowaitEntries(Pending(results), size, trunk, kind), t, u));
  }

  lemma WholeJobs(results: seq<EvalResult>, size: nat, light: seq<string>, count: nat, trunk: set<Drv>, kind: Kind, t: string, u: string)
    requires size > 0 && Dealt(results, size, light, count) && (kind == "fuzz" || kind == "vm-test" || kind == "coverage")
    ensures OneJob(GatedEntries(Pending(results), size, trunk, kind), t, u)
       <==> IsPending(results, kind, t) && IsPending(results, kind, u) && SameCluster(light, count, kind, t, u)
  {
    WholeLists(Pending(results), size, trunk, kind, "", t, u, "");
    ClustersTogether(results, size, light, count, kind, t, u);
  }

  /** Which entries share a job: those of one cluster that both wait, or both do not. With `t == u` this is which
      matrix holds `t` at all. */
  lemma PlanJobs(results: seq<EvalResult>, size: nat, light: seq<string>, count: nat, trunk: set<Drv>, comps: seq<Component>, out: Outputs,
                 t: string, u: string)
    requires size > 0 && Dealt(results, size, light, count) && IsPlan(Pending(results), size, trunk, comps, out)
    ensures OneJob(out.checks, t, u)
       <==> Stands(results, light, count, "checks", t, true) && Stands(results, light, count, "checks", u, true) && SameCluster(light, count, "checks", t, u)
    ensures OneJob(out.checksNowait, t, u)
       <==> Stands(results, light, count, "checks", t, false) && Stands(results, light, count, "checks", u, false) && SameCluster(light, count, "checks", t, u)
    ensures OneJob(out.formal, t, u)
       <==> Stands(results, light, count, "formal", t, true) && Stands(results, light, count, "formal", u, true) && SameCluster(light, count, "formal", t, u)
    ensures OneJob(out.formalNowait, t, u)
       <==> Stands(results, light, count, "formal", t, false) && Stands(results, light, count, "formal", u, false) && SameCluster(light, count, "formal", t, u)
    ensures OneJob(out.fuzz, t, u) <==> IsPending(results, "fuzz", t) && t == u
    ensures OneJob(out.vmTest, t, u) <==> IsPending(results, "vm-test", t) && t == u
    ensures OneJob(out.coverage, t, u)
       <==> IsPending(results, "coverage", t) && IsPending(results, "coverage", u) && (t == u || (IsUnit(t) && IsUnit(u)))
  {
    SplitJobs(results, size, light, count, trunk, "checks", t, u);
    SplitJobs(results, size, light, count, trunk, "formal", t, u);
    WholeJobs(results, size, light, count, trunk, "fuzz", t, u);
    WholeJobs(results, size, light, count, trunk, "vm-test", t, u);
    WholeJobs(results, size, light, count, trunk, "coverage", t, u);
  }
}

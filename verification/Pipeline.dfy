/** From the emitted matrices to the CI run: the jobs of `build_outputs` make a well-formed plan. */
module Pipeline {

  import opened Trunk
  import opened Clusters
  import opened Packing
  import opened Matrix
  import opened WarmStage

  /** nix-eval-jobs reports closures: each entry's needed set holds its drv and is closed under uncached
      dependency. */
  ghost predicate MetaClosed(deps: Deps, m: Meta)
  {
    m.drv in m.needed && ClosedUnder(deps, m.needed)
  }

  ghost predicate MetasClosed(deps: Deps, metas: Metas)
  {
    forall t :: t in metas ==> MetaClosed(deps, metas[t])
  }

  ghost predicate EntriesClosed(deps: Deps, pend: Pend)
  {
    forall kind :: MetasClosed(deps, MetasOf(pend, kind))
  }

  ghost function DrvsOf(targets: seq<string>, metas: Metas): set<Drv>
    requires forall t :: t in targets ==> t in metas
  {
    set t | t in targets :: metas[t].drv
  }

  lemma NeededClosed(deps: Deps, metas: Metas, targets: seq<string>)
    requires MetasClosed(deps, metas) && forall t :: t in targets ==> t in metas
    ensures ClosedUnder(deps, NeededBy(targets, metas)) && DrvsOf(targets, metas) <= NeededBy(targets, metas)
  {
    var s := NeededBy(targets, metas);
    assert forall t :: t in targets ==> MetaClosed(deps, metas[t]);
    forall d, e | d in s && e in deps(d)
      ensures e in s
    {
      var t :| t in targets && d in metas[t].needed;
      assert ClosedUnder(deps, metas[t].needed);
    }
  }

  // ----- jobs, parallel to the entries -----

  /** The job of one emitted (part of a) cluster; `i` is the cluster's number across all kinds. */
  ghost function JobOf(c: Cluster, metas: Metas, i: nat, gated: bool): Job
    requires forall t :: t in c.targets ==> t in metas
  {
    Job(i, gated, DrvsOf(c.targets, metas), NeededBy(c.targets, metas))
  }

  ghost function HotPart(c: Cluster, metas: Metas, trunk: set<Drv>): Cluster
  {
    Cluster(c.name, HotTargets(c.targets, metas, trunk))
  }

  ghost function ColdPart(c: Cluster, metas: Metas, trunk: set<Drv>): Cluster
  {
    Cluster(c.name, ColdTargets(c.targets, metas, trunk))
  }

  lemma PartTargets(targets: seq<string>, keep: string -> bool, t: string)
    ensures t in Filter(targets, keep) <==> t in targets && keep(t)
  {
    FilterCount(targets, keep, t);
    assert t in Filter(targets, keep) <==> t in multiset(Filter(targets, keep));
    assert t in targets <==> t in multiset(targets);
  }

  lemma PartsKnown(c: Cluster, metas: Metas, trunk: set<Drv>)
    requires forall t :: t in c.targets ==> t in metas
    ensures forall t :: t in HotPart(c, metas, trunk).targets ==> t in metas && t in c.targets
    ensures forall t :: t in ColdPart(c, metas, trunk).targets ==> t in metas && t in c.targets && !IsHot(metas, trunk, t)
  {
    forall t
      ensures t in HotTargets(c.targets, metas, trunk) ==> t in c.targets
      ensures t in ColdTargets(c.targets, metas, trunk) ==> t in c.targets && !IsHot(metas, trunk, t)
    {
      PartTargets(c.targets, x => IsHot(metas, trunk, x), t);
      PartTargets(c.targets, x => !IsHot(metas, trunk, x), t);
    }
  }

  /** The waiting job that a cluster becomes, if any. */
  ghost function GatedJob(c: Cluster, metas: Metas, trunk: set<Drv>, split: bool, i: nat): seq<Job>
    requires forall t :: t in c.targets ==> t in metas
  {
    PartsKnown(c, metas, trunk);
    if !split then [JobOf(c, metas, i, true)]
    else if HotPart(c, metas, trunk).targets == [] then []
    else [JobOf(HotPart(c, metas, trunk), metas, i, true)]
  }

  ghost function NowaitJob(c: Cluster, metas: Metas, trunk: set<Drv>, i: nat): seq<Job>
    requires forall t :: t in c.targets ==> t in metas
  {
    PartsKnown(c, metas, trunk);
    if ColdPart(c, metas, trunk).targets == [] then [] else [JobOf(ColdPart(c, metas, trunk), metas, i, false)]
  }

  ghost function GatedJobs(cs: seq<Cluster>, metas: Metas, trunk: set<Drv>, split: bool, base: nat): seq<Job>
    requires Known(cs, metas)
  {
    if cs == [] then []
    else
      var k := |cs| - 1;
      GatedJobs(cs[..k], metas, trunk, split, base) + GatedJob(cs[k], metas, trunk, split, base + k)
  }

  ghost function NowaitJobs(cs: seq<Cluster>, metas: Metas, trunk: set<Drv>, split: bool, base: nat): seq<Job>
    requires Known(cs, metas)
  {
    if cs == [] || !split then []
    else
      var k := |cs| - 1;
      NowaitJobs(cs[..k], metas, trunk, split, base) + NowaitJob(cs[k], metas, trunk, base + k)
  }

  /** Job i is what entry i makes a runner do: realise the entry's drvs. */
  ghost predicate Runs(jobs: seq<Job>, entries: seq<Entry>, metas: Metas, gated: bool)
  {
    && |jobs| == |entries|
    && forall i :: 0 <= i < |jobs| ==>
         && (forall t :: t in entries[i].targets ==> t in metas)
         && jobs[i].roots == (set d | d in entries[i].drvs)
         && jobs[i].needed == NeededBy(entries[i].targets, metas)
         && jobs[i].gated == gated
  }

  lemma AttachSnoc(cs: seq<Cluster>, more: seq<Cluster>, metas: Metas)
    requires Known(cs, metas) && Known(more, metas)
    ensures Known(cs + more, metas) && AttachDrvs(cs + more, metas) == AttachDrvs(cs, metas) + AttachDrvs(more, metas)
  {
    forall i, t | 0 <= i < |cs + more| && t in (cs + more)[i].targets
      ensures t in metas
    {
      if i >= |cs| { assert (cs + more)[i] == more[i - |cs|]; }
    }
  }

  lemma RunsConcat(a: seq<Job>, x: seq<Entry>, b: seq<Job>, y: seq<Entry>, metas: Metas, gated: bool)
    requires Runs(a, x, metas, gated) && Runs(b, y, metas, gated)
    ensures Runs(a + b, x + y, metas, gated)
  {
    forall i | 0 <= i < |a + b|
      ensures (a + b)[i] == (if i < |a| then a[i] else b[i - |a|]) && (x + y)[i] == if i < |a| then x[i] else y[i - |a|]
    {
    }
  }

  lemma RunsOne(c: Cluster, metas: Metas, i: nat, gated: bool)
    requires forall t :: t in c.targets ==> t in metas
    ensures Known([c], metas) && Runs([JobOf(c, metas, i, gated)], AttachDrvs([c], metas), metas, gated)
  {
    var e := AttachDrvs([c], metas)[0];
    forall t | t in c.targets
      ensures metas[t].drv in e.drvs
    {
      var k :| 0 <= k < |c.targets| && c.targets[k] == t;
      assert e.drvs[k] == metas[t].drv;
    }
    assert DrvsOf(c.targets, metas) == set d | d in e.drvs;
  }

  lemma {:induction false} JobsRunGated(cs: seq<Cluster>, metas: Metas, trunk: set<Drv>, base: nat)
    requires Known(cs, metas) && Known(Gated(cs, metas, trunk), metas)
    ensures Runs(GatedJobs(cs, metas, trunk, true, base), AttachDrvs(Gated(cs, metas, trunk), metas), metas, true)
  {
    if cs != [] {
      var k := |cs| - 1;
      PartsKnown(cs[k], metas, trunk);
      PartitionKnown(cs[..k], metas, trunk);
      JobsRunGated(cs[..k], metas, trunk, base);
      var part := GatedPart(cs[k], metas, trunk);
      if part != [] {
        RunsOne(HotPart(cs[k], metas, trunk), metas, base + k, true);
      }
      AttachSnoc(Gated(cs[..k], metas, trunk), part, metas);
      RunsConcat(GatedJobs(cs[..k], metas, trunk, true, base), AttachDrvs(Gated(cs[..k], metas, trunk), metas),
                 GatedJob(cs[k], metas, trunk, true, base + k),
                 AttachDrvs(part, metas), metas, true);
    }
  }

  lemma {:induction false} JobsRunNowait(cs: seq<Cluster>, metas: Metas, trunk: set<Drv>, base: nat)
    requires Known(cs, metas) && Known(Nowait(cs, metas, trunk), metas)
    ensures Runs(NowaitJobs(cs, metas, trunk, true, base), AttachDrvs(Nowait(cs, metas, trunk), metas), metas, false)
  {
    if cs != [] {
      var k := |cs| - 1;
      PartsKnown(cs[k], metas, trunk);
      PartitionKnown(cs[..k], metas, trunk);
      JobsRunNowait(cs[..k], metas, trunk, base);
      var part := NowaitPart(cs[k], metas, trunk);
      if part != [] {
        RunsOne(ColdPart(cs[k], metas, trunk), metas, base + k, false);
      }
      AttachSnoc(Nowait(cs[..k], metas, trunk), part, metas);
      RunsConcat(NowaitJobs(cs[..k], metas, trunk, true, base), AttachDrvs(Nowait(cs[..k], metas, trunk), metas),
                 NowaitJob(cs[k], metas, trunk, base + k),
                 AttachDrvs(part, metas), metas, false);
    }
  }

  lemma {:induction false} JobsRunAll(cs: seq<Cluster>, metas: Metas, trunk: set<Drv>, base: nat)
    requires Known(cs, metas)
    ensures Runs(GatedJobs(cs, metas, trunk, false, base), AttachDrvs(cs, metas), metas, true)
  {
    if cs != [] {
      var k := |cs| - 1;
      JobsRunAll(cs[..k], metas, trunk, base);
      RunsOne(cs[k], metas, base + k, true);
      AttachSnoc(cs[..k], [cs[k]], metas);
      assert cs == cs[..k] + [cs[k]];
      RunsConcat(GatedJobs(cs[..k], metas, trunk, false, base), AttachDrvs(cs[..k], metas),
                 [JobOf(cs[k], metas, base + k, true)], AttachDrvs([cs[k]], metas), metas, true);
    }
  }

  // ----- the plan -----

  ghost function KindGatedJobs(pend: Pend, size: nat, trunk: set<Drv>, n: nat): seq<Job>
    requires size > 0 && n < |MATRIX_KINDS|
  {
    var kind := MATRIX_KINDS[n];
    ClustersKnown(pend, kind, size);
    GatedJobs(ClustersOf(pend, kind, size), MetasOf(pend, kind), trunk, IsSplitKind(kind), |NeedsUpTo(pend, size, n)|)
  }

  ghost function KindNowaitJobs(pend: Pend, size: nat, trunk: set<Drv>, n: nat): seq<Job>
    requires size > 0 && n < |MATRIX_KINDS|
  {
    var kind := MATRIX_KINDS[n];
    ClustersKnown(pend, kind, size);
    NowaitJobs(ClustersOf(pend, kind, size), MetasOf(pend, kind), trunk, IsSplitKind(kind), |NeedsUpTo(pend, size, n)|)
  }

  ghost function JobsUpTo(pend: Pend, size: nat, trunk: set<Drv>, n: nat): seq<Job>
    requires size > 0 && n <= |MATRIX_KINDS|
  {
    if n == 0 then []
    else JobsUpTo(pend, size, trunk, n - 1) + KindGatedJobs(pend, size, trunk, n - 1) + KindNowaitJobs(pend, size, trunk, n - 1)
  }

  /** The jobs of each kind are, in order, the emitted entries of its two matrices. */
  lemma JobsAreEntries(pend: Pend, size: nat, trunk: set<Drv>, n: nat)
    requires size > 0 && n < |MATRIX_KINDS|
    ensures Runs(KindGatedJobs(pend, size, trunk, n), GatedEntries(pend, size, trunk, MATRIX_KINDS[n]), MetasOf(pend, MATRIX_KINDS[n]), true)
    ensures Runs(KindNowaitJobs(pend, size, trunk, n), NowaitEntries(pend, size, trunk, MATRIX_KINDS[n]), MetasOf(pend, MATRIX_KINDS[n]), false)
  {
    var kind := MATRIX_KINDS[n];
    var cs, metas, base := ClustersOf(pend, kind, size), MetasOf(pend, kind), |NeedsUpTo(pend, size, n)|;
    ClustersKnown(pend, kind, size);
    if IsSplitKind(kind) {
      PartitionKnown(cs, metas, trunk);
      JobsRunGated(cs, metas, trunk, base);
      JobsRunNowait(cs, metas, trunk, base);
    } else {
      JobsRunAll(cs, metas, trunk, base);
    }
  }

  ghost function WarmSets(warm: seq<Shard>): seq<set<Drv>>
  {
    seq(|warm|, b requires 0 <= b < |warm| => set d | d in warm[b].drvs)
  }

  ghost function CiPlan(pend: Pend, size: nat, trunk: set<Drv>, warm: seq<Shard>): Plan
    requires size > 0
  {
    Plan(Needs(pend, size), trunk, WarmSets(warm), JobsUpTo(pend, size, trunk, |MATRIX_KINDS|))
  }

  /** Clusters base, base+1, ... of `needs` are `cs`. */
  ghost predicate NeedsAt(needs: seq<Need>, base: nat, cs: seq<Cluster>, metas: Metas)
    requires Known(cs, metas)
  {
    && base + |cs| <= |needs|
    && forall k :: 0 <= k < |cs| ==> needs[base + k].drvs == NeededBy(cs[k].targets, metas)
  }

  ghost predicate KindAt(needs: seq<Need>, base: nat, n: nat, kind: Kind)
  {
    base + n <= |needs| && forall i :: base <= i < base + n ==> needs[i].kind == kind
  }

  lemma PartFits(deps: Deps, needs: seq<Need>, trunk: set<Drv>, c: Cluster, part: Cluster, metas: Metas, i: nat, gated: bool)
    requires MetasClosed(deps, metas) && forall t :: t in c.targets ==> t in metas
    requires i < |needs| && needs[i].drvs == NeededBy(c.targets, metas)
    requires forall t :: t in part.targets ==> t in c.targets
    requires !gated ==> forall t :: t in part.targets ==> !IsHot(metas, trunk, t)
    ensures JobOk(deps, needs, trunk, JobOf(part, metas, i, gated))
  {
    NeededClosed(deps, metas, part.targets);
    if !gated {
      forall d | d in NeededBy(part.targets, metas)
        ensures d !in trunk
      {
        var t :| t in part.targets && d in metas[t].needed;
        HotOverlaps(metas, trunk, t);
      }
    }
  }

  ghost predicate AllFit(deps: Deps, needs: seq<Need>, trunk: set<Drv>, jobs: seq<Job>)
  {
    forall job :: job in jobs ==> JobOk(deps, needs, trunk, job)
  }

  lemma FitConcat(deps: Deps, needs: seq<Need>, trunk: set<Drv>, a: seq<Job>, b: seq<Job>)
    requires AllFit(deps, needs, trunk, a) && AllFit(deps, needs, trunk, b)
    ensures AllFit(deps, needs, trunk, a + b)
  {
  }

  lemma GatedFit(deps: Deps, needs: seq<Need>, trunk: set<Drv>, c: Cluster, metas: Metas, split: bool, i: nat)
    requires MetasClosed(deps, metas) && forall t :: t in c.targets ==> t in metas
    requires i < |needs| && needs[i].drvs == NeededBy(c.targets, metas)
    ensures AllFit(deps, needs, trunk, GatedJob(c, metas, trunk, split, i))
  {
    PartsKnown(c, metas, trunk);
    PartFits(deps, needs, trunk, c, c, metas, i, true);
    PartFits(deps, needs, trunk, c, HotPart(c, metas, trunk), metas, i, true);
  }

  lemma {:induction false} GatedJobsFit(deps: Deps, needs: seq<Need>, trunk: set<Drv>, cs: seq<Cluster>, metas: Metas, split: bool, base: nat)
    requires Known(cs, metas) && MetasClosed(deps, metas) && NeedsAt(needs, base, cs, metas)
    ensures AllFit(deps, needs, trunk, GatedJobs(cs, metas, trunk, split, base))
  {
    if cs != [] {
      var k := |cs| - 1;
      GatedJobsFit(deps, needs, trunk, cs[..k], metas, split, base);
      GatedFit(deps, needs, trunk, cs[k], metas, split, base + k);
      FitConcat(deps, needs, trunk, GatedJobs(cs[..k], metas, trunk, split, base), GatedJob(cs[k], metas, trunk, split, base + k));
    }
  }

  lemma NowaitFit(deps: Deps, needs: seq<Need>, trunk: set<Drv>, c: Cluster, metas: Metas, i: nat)
    requires MetasClosed(deps, metas) && forall t :: t in c.targets ==> t in metas
    requires i < |needs| && needs[i].drvs == NeededBy(c.targets, metas)
    ensures AllFit(deps, needs, trunk, NowaitJob(c, metas, trunk, i))
  {
    PartsKnown(c, metas, trunk);
    PartFits(deps, needs, trunk, c, ColdPart(c, metas, trunk), metas, i, false);
  }

  lemma {:induction false} NowaitJobsFit(deps: Deps, needs: seq<Need>, trunk: set<Drv>, cs: seq<Cluster>, metas: Metas, split: bool, base: nat)
    requires Known(cs, metas) && MetasClosed(deps, metas) && NeedsAt(needs, base, cs, metas)
    ensures AllFit(deps, needs, trunk, NowaitJobs(cs, metas, trunk, split, base))
  {
    if cs != [] && split {
      var k := |cs| - 1;
      NowaitJobsFit(deps, needs, trunk, cs[..k], metas, split, base);
      NowaitFit(deps, needs, trunk, cs[k], metas, base + k);
      FitConcat(deps, needs, trunk, NowaitJobs(cs[..k], metas, trunk, split, base), NowaitJob(cs[k], metas, trunk, base + k));
    }
  }

  lemma {:induction false} NeedsPrefix(pend: Pend, size: nat, n: nat, m: nat)
    requires size > 0 && n <= m <= |MATRIX_KINDS|
    ensures NeedsUpTo(pend, size, n) <= NeedsUpTo(pend, size, m)
    decreases m
  {
    if n < m {
      NeedsPrefix(pend, size, n, m - 1);
    }
  }

  lemma KindNeedsAt(pend: Pend, size: nat, n: nat)
    requires size > 0 && n < |MATRIX_KINDS|
    ensures Known(ClustersOf(pend, MATRIX_KINDS[n], size), MetasOf(pend, MATRIX_KINDS[n]))
    ensures NeedsAt(Needs(pend, size), |NeedsUpTo(pend, size, n)|, ClustersOf(pend, MATRIX_KINDS[n], size), MetasOf(pend, MATRIX_KINDS[n]))
    ensures KindAt(Needs(pend, size), |NeedsUpTo(pend, size, n)|, |ClustersOf(pend, MATRIX_KINDS[n], size)|, MATRIX_KINDS[n])
  {
    var kind := MATRIX_KINDS[n];
    var cs, metas := ClustersOf(pend, kind, size), MetasOf(pend, kind);
    ClustersKnown(pend, kind, size);
    NeedsPrefix(pend, size, n + 1, |MATRIX_KINDS|);
    var before := NeedsUpTo(pend, size, n);
    assert NeedsUpTo(pend, size, n + 1) == before + KindNeeds(kind, cs, metas);
    BlockAt(before, kind, cs, metas, Needs(pend, size));
  }

  lemma BlockAt(before: seq<Need>, kind: Kind, cs: seq<Cluster>, metas: Metas, all: seq<Need>)
    requires Known(cs, metas) && before + KindNeeds(kind, cs, metas) <= all
    ensures NeedsAt(all, |before|, cs, metas) && KindAt(all, |before|, |cs|, kind)
  {
    var block := before + KindNeeds(kind, cs, metas);
    forall k | 0 <= k < |cs|
      ensures all[|before| + k].drvs == NeededBy(cs[k].targets, metas)
    {
      assert all[|before| + k] == block[|before| + k];
    }
    forall i | |before| <= i < |before| + |cs|
      ensures all[i].kind == kind
    {
      assert all[i] == block[i];
    }
  }

  ghost predicate KindFits(deps: Deps, needs: seq<Need>, pend: Pend, size: nat, trunk: set<Drv>, n: nat)
    requires size > 0 && n < |MATRIX_KINDS|
  {
    && AllFit(deps, needs, trunk, KindGatedJobs(pend, size, trunk, n))
    && AllFit(deps, needs, trunk, KindNowaitJobs(pend, size, trunk, n))
  }

  lemma KindJobsFit(deps: Deps, pend: Pend, size: nat, trunk: set<Drv>, n: nat)
    requires size > 0 && n < |MATRIX_KINDS| && EntriesClosed(deps, pend)
    ensures KindFits(deps, Needs(pend, size), pend, size, trunk, n)
  {
    var kind := MATRIX_KINDS[n];
    KindNeedsAt(pend, size, n);
    var cs, metas, base := ClustersOf(pend, kind, size), MetasOf(pend, kind), |NeedsUpTo(pend, size, n)|;
    GatedJobsFit(deps, Needs(pend, size), trunk, cs, metas, IsSplitKind(kind), base);
    NowaitJobsFit(deps, Needs(pend, size), trunk, cs, metas, IsSplitKind(kind), base);
  }

  lemma NextJobsFit(deps: Deps, needs: seq<Need>, pend: Pend, size: nat, trunk: set<Drv>, n: nat)
    requires size > 0 && n < |MATRIX_KINDS| && KindFits(deps, needs, pend, size, trunk, n)
    requires AllFit(deps, needs, trunk, JobsUpTo(pend, size, trunk, n))
    ensures AllFit(deps, needs, trunk, JobsUpTo(pend, size, trunk, n + 1))
  {
    var before := JobsUpTo(pend, size, trunk, n);
    var gated, nowait := KindGatedJobs(pend, size, trunk, n), KindNowaitJobs(pend, size, trunk, n);
    FitConcat(deps, needs, trunk, before, gated);
    FitConcat(deps, needs, trunk, before + gated, nowait);
  }

  lemma {:induction false} JobsFit(deps: Deps, needs: seq<Need>, pend: Pend, size: nat, trunk: set<Drv>, n: nat)
    requires size > 0 && n <= |MATRIX_KINDS|
    requires forall k: nat :: k < n ==> KindFits(deps, needs, pend, size, trunk, k)
    ensures AllFit(deps, needs, trunk, JobsUpTo(pend, size, trunk, n))
  {
    if n > 0 {
      JobsFit(deps, needs, pend, size, trunk, n - 1);
      NextJobsFit(deps, needs, pend, size, trunk, n - 1);
    }
  }

  lemma {:induction false} NeedsAreClosed(deps: Deps, pend: Pend, size: nat, n: nat)
    requires size > 0 && n <= |MATRIX_KINDS| && EntriesClosed(deps, pend)
    ensures NeedsClosed(deps, NeedsUpTo(pend, size, n))
  {
    if n > 0 {
      NeedsAreClosed(deps, pend, size, n - 1);
      var kind := MATRIX_KINDS[n - 1];
      var cs, metas := ClustersOf(pend, kind, size), MetasOf(pend, kind);
      ClustersKnown(pend, kind, size);
      forall k | 0 <= k < |cs|
        ensures ClosedUnder(deps, KindNeeds(kind, cs, metas)[k].drvs)
      {
        NeededClosed(deps, metas, cs[k].targets);
      }
    }
  }

  lemma ShardsFit(needs: seq<Need>, trunk: set<Drv>, comps: seq<Component>, jobs: seq<Job>)
    requires IsComponents(needs, trunk, comps)
    ensures ShardsOk(Plan(needs, trunk, WarmSets(Shards(comps, MAX_WARM_SHARDS)), jobs))
  {
    WarmSharesTrunk(needs, trunk, comps);
    var warm := Shards(comps, MAX_WARM_SHARDS);
    var sets := WarmSets(warm);
    forall d | d in trunk
      ensures exists b :: 0 <= b < |sets| && d in sets[b]
    {
      var b :| 0 <= b < |warm| && d in warm[b].drvs;
      assert d in sets[b];
    }
  }

  /** Whatever the evaluation returned, the emitted shards and jobs form a well-formed plan: so no
      interleaving of the CI run builds a drv twice across clusters, and none gets stuck. */
  lemma OutputsAreWellPlanned(deps: Deps, pend: Pend, size: nat, trunk: set<Drv>, comps: seq<Component>, out: Outputs)
    requires size > 0 && EntriesClosed(deps, pend) && IsPlan(pend, size, trunk, comps, out)
    ensures WellPlanned(deps, CiPlan(pend, size, trunk, out.warm))
  {
    var plan := CiPlan(pend, size, trunk, out.warm);
    NeedsAreClosed(deps, pend, size, |MATRIX_KINDS|);
    ShardsFit(plan.needs, trunk, comps, plan.jobs);
    forall n: nat | n < |MATRIX_KINDS|
      ensures KindFits(deps, plan.needs, pend, size, trunk, n)
    {
      KindJobsFit(deps, pend, size, trunk, n);
    }
    JobsFit(deps, plan.needs, pend, size, trunk, |MATRIX_KINDS|);
    forall j | 0 <= j < |plan.jobs|
      ensures JobOk(deps, plan.needs, plan.trunk, plan.jobs[j])
    {
      assert plan.jobs[j] in plan.jobs;
    }
  }
}

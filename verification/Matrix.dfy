/** `build_outputs`: from evaluation results to the warm shards and the job matrices. */
module Matrix {

  import opened Options
  import opened Ordering
  import opened Trunk
  import opened Clusters
  import opened FormalShards
  import Components
  import opened Packing

  /** One nix-eval-jobs result without an evaluation error. */
  datatype EvalResult = EvalResult(attr: string, cached: bool, drv: Drv, needed: seq<Drv>, heap: Option<int>)

  /** A matrix entry: the attr names and, position by position, their drv paths. */
  datatype Entry = Entry(name: string, targets: seq<string>, drvs: seq<Drv>)

  /** The output dictionary, one field per key; `<kind>-nowait` exists for the split kinds only. */
  datatype Outputs = Outputs(
    warm: seq<Shard>,
    checks: seq<Entry>, checksNowait: seq<Entry>,
    formal: seq<Entry>, formalNowait: seq<Entry>,
    fuzz: seq<Entry>, vmTest: seq<Entry>, coverage: seq<Entry>)

  type Metas = map<string, Meta>
  type Pend = map<Kind, Metas>

  const MATRIX_KINDS: seq<Kind> := ["checks", "formal", "fuzz", "vm-test", "coverage"]

  predicate IsSplitKind(kind: Kind)
  {
    kind == "checks" || kind == "formal"
  }

  // ----- pending -----

  /** `attr.partition(".")`: kind and name around the first dot. */
  function SplitAttr(attr: string): (r: (Kind, string))
    ensures '.' !in r.0
    ensures if '.' in attr then r.0 + "." + r.1 == attr else r == (attr, "")
  {
    if attr == "" then ("", "")
    else if attr[0] == '.' then
      assert "" + "." + attr[1..] == attr;
      ("", attr[1..])
    else
      var (kind, name) := SplitAttr(attr[1..]);
      assert attr == [attr[0]] + attr[1..];
      assert ([attr[0]] + kind) + "." + name == [attr[0]] + (kind + "." + name);
      ([attr[0]] + kind, name)
  }

  lemma {:induction false} SplitAttrJoined(kind: Kind, name: string)
    requires '.' !in kind
    ensures SplitAttr(kind + "." + name) == (kind, name)
  {
    var attr := kind + "." + name;
    if kind == "" {
      assert attr[1..] == name;
    } else {
      assert attr[1..] == kind[1..] + "." + name;
      SplitAttrJoined(kind[1..], name);
      assert kind == [kind[0]] + kind[1..];
    }
  }

  function MetasOf(pend: Pend, kind: Kind): Metas
  {
    if kind in pend then pend[kind] else map[]
  }

  function AsMeta(r: EvalResult): Meta
  {
    Meta(r.drv, set i | 0 <= i < |r.needed| :: r.needed[i], r.heap)
  }

  function Enter(pend: Pend, r: EvalResult): Pend
  {
    if r.cached then pend
    else
      var (kind, name) := SplitAttr(r.attr);
      pend[kind := MetasOf(pend, kind)[name := AsMeta(r)]]
  }

  function Pending(results: seq<EvalResult>): Pend
  {
    if results == [] then map[]
    else Enter(Pending(results[..|results| - 1]), results[|results| - 1])
  }

  method CollectPending(results: seq<EvalResult>) returns (pend: Pend)
    ensures pend == Pending(results)
  {
    pend := map[];
    for n := 0 to |results|
      invariant pend == Pending(results[..n])
    {
      assert results[..n + 1][..n] == results[..n];
      pend := Enter(pend, results[n]);
    }
    assert results[..|results|] == results;
  }

  /** An uncached result for this kind and name. */
  ghost predicate Hits(r: EvalResult, kind: Kind, name: string)
  {
    !r.cached && SplitAttr(r.attr) == (kind, name)
  }

  lemma EnterLookup(pend: Pend, r: EvalResult, kind: Kind, name: string)
    ensures name in MetasOf(Enter(pend, r), kind) <==> Hits(r, kind, name) || name in MetasOf(pend, kind)
    ensures name in MetasOf(Enter(pend, r), kind) ==>
      MetasOf(Enter(pend, r), kind)[name] == if Hits(r, kind, name) then AsMeta(r) else MetasOf(pend, kind)[name]
  {
  }

  /** Result i is the last uncached one for this kind and name. */
  ghost predicate LastHit(results: seq<EvalResult>, kind: Kind, name: string, i: nat)
  {
    && i < |results| && Hits(results[i], kind, name)
    && forall j :: i < j < |results| ==> !Hits(results[j], kind, name)
  }

  lemma LastHitPrefix(results: seq<EvalResult>, kind: Kind, name: string, i: nat)
    requires results != [] && !Hits(results[|results| - 1], kind, name)
    ensures LastHit(results, kind, name, i) <==> LastHit(results[..|results| - 1], kind, name, i)
  {
    var init := results[..|results| - 1];
    assert forall j :: 0 <= j < |init| ==> init[j] == results[j];
    if LastHit(init, kind, name, i) {
      assert forall j :: i < j < |init| ==> !Hits(init[j], kind, name);
    }
  }

  /** An entry is pending exactly if some result for it is uncached, with the last one's metadata. */
  lemma {:induction false} PendingExact(results: seq<EvalResult>, kind: Kind, name: string)
    ensures name in MetasOf(Pending(results), kind) <==> exists i: nat :: LastHit(results, kind, name, i)
    ensures forall i: nat :: LastHit(results, kind, name, i) ==>
      name in MetasOf(Pending(results), kind) && MetasOf(Pending(results), kind)[name] == AsMeta(results[i])
  {
    if results != [] {
      var n := |results| - 1;
      PendingExact(results[..n], kind, name);
      EnterLookup(Pending(results[..n]), results[n], kind, name);
      if Hits(results[n], kind, name) {
        assert LastHit(results, kind, name, n);
      } else {
        forall i: nat
          ensures LastHit(results, kind, name, i) <==> LastHit(results[..n], kind, name, i)
        {
          LastHitPrefix(results, kind, name, i);
        }
      }
    }
  }

  // ----- clusters and their needs -----

  function Names(pend: Pend, kind: Kind): seq<string>
  {
    SortedSet(MetasOf(pend, kind).Keys)
  }

  function Heaps(metas: Metas): map<string, Option<int>>
  {
    map n | n in metas :: metas[n].heap
  }

  function ClustersOf(pend: Pend, kind: Kind, size: nat): seq<Cluster>
    requires size > 0
  {
    if kind == "checks" then ClusterChecks(Names(pend, kind))
    else if kind == "formal" then ClusterFormal(Names(pend, kind), size, Heaps(MetasOf(pend, kind)))
    else if kind == "coverage" then ClusterCoverage(Names(pend, kind))
    else Singletons(Names(pend, kind))
  }

  lemma ClustersConserve(pend: Pend, kind: Kind, size: nat)
    requires size > 0
    ensures Conserves(ClustersOf(pend, kind, size), Names(pend, kind))
  {
    var names := Names(pend, kind);
    ChecksConserve(names);
    FormalConserves(names, size, Heaps(MetasOf(pend, kind)));
    CoverageConserves(names);
    SingletonsConserve(names);
  }

  /** All of a cluster's targets have metadata. */
  ghost predicate Known(cs: seq<Cluster>, metas: Metas)
  {
    forall i, t :: 0 <= i < |cs| && t in cs[i].targets ==> t in metas
  }

  lemma {:induction false} TargetListed(cs: seq<Cluster>, i: nat, t: string)
    requires i < |cs| && t in cs[i].targets
    ensures t in AllTargets(cs)
  {
    if i > 0 {
      TargetListed(cs[1..], i - 1, t);
    }
  }

  lemma ClustersKnown(pend: Pend, kind: Kind, size: nat)
    requires size > 0
    ensures Known(ClustersOf(pend, kind, size), MetasOf(pend, kind))
  {
    ClustersConserve(pend, kind, size);
    var cs := ClustersOf(pend, kind, size);
    forall i, t | 0 <= i < |cs| && t in cs[i].targets
      ensures t in MetasOf(pend, kind)
    {
      TargetListed(cs, i, t);
      assert t in multiset(Names(pend, kind));
    }
  }

  /** Union of the targets' needed sets. */
  function NeededBy(targets: seq<string>, metas: Metas): (s: set<Drv>)
    requires forall t :: t in targets ==> t in metas
    ensures forall d :: d in s <==> exists t :: t in targets && d in metas[t].needed
  {
    set t, d | t in targets && d in metas[t].needed :: d
  }

  method ClusterNeeded(targets: seq<string>, metas: Metas) returns (needed: set<Drv>)
    requires forall t :: t in targets ==> t in metas
    ensures needed == NeededBy(targets, metas)
  {
    needed := {};
    for i := 0 to |targets|
      invariant forall d :: d in needed <==> exists j :: 0 <= j < i && d in metas[targets[j]].needed
    {
      needed := needed + metas[targets[i]].needed;
    }
  }

  function KindNeeds(kind: Kind, cs: seq<Cluster>, metas: Metas): (needs: seq<Need>)
    requires Known(cs, metas)
    ensures |needs| == |cs|
  {
    seq(|cs|, i requires 0 <= i < |cs| => Need(kind, NeededBy(cs[i].targets, metas)))
  }

  /** The needs of every cluster of the first n kinds. */
  function NeedsUpTo(pend: Pend, size: nat, n: nat): seq<Need>
    requires size > 0 && n <= |MATRIX_KINDS|
  {
    if n == 0 then []
    else
      var kind := MATRIX_KINDS[n - 1];
      ClustersKnown(pend, kind, size);
      NeedsUpTo(pend, size, n - 1) + KindNeeds(kind, ClustersOf(pend, kind, size), MetasOf(pend, kind))
  }

  function Needs(pend: Pend, size: nat): seq<Need>
    requires size > 0
  {
    NeedsUpTo(pend, size, |MATRIX_KINDS|)
  }

  method CollectKindNeeds(kind: Kind, cs: seq<Cluster>, metas: Metas) returns (needs: seq<Need>)
    requires Known(cs, metas)
    ensures needs == KindNeeds(kind, cs, metas)
  {
    needs := [];
    for i := 0 to |cs|
      invariant needs == KindNeeds(kind, cs, metas)[..i]
    {
      var needed := ClusterNeeded(cs[i].targets, metas);
      needs := needs + [Need(kind, needed)];
    }
  }

  method CollectNeeds(pend: Pend, size: nat) returns (needs: seq<Need>)
    requires size > 0
    ensures needs == Needs(pend, size)
  {
    needs := [];
    for n := 0 to |MATRIX_KINDS|
      invariant needs == NeedsUpTo(pend, size, n)
    {
      var kind := MATRIX_KINDS[n];
      ClustersKnown(pend, kind, size);
      var more := CollectKindNeeds(kind, ClustersOf(pend, kind, size), MetasOf(pend, kind));
      needs := needs + more;
    }
  }

  // ----- gated and nowait -----

  predicate IsHot(metas: Metas, trunk: set<Drv>, t: string)
  {
    t in metas && metas[t].needed * trunk != {}
  }

  function HotTargets(targets: seq<string>, metas: Metas, trunk: set<Drv>): seq<string>
  {
    Filter(targets, t => IsHot(metas, trunk, t))
  }

  function ColdTargets(targets: seq<string>, metas: Metas, trunk: set<Drv>): seq<string>
  {
    Filter(targets, t => !IsHot(metas, trunk, t))
  }

  function GatedPart(c: Cluster, metas: Metas, trunk: set<Drv>): seq<Cluster>
  {
    var hot := HotTargets(c.targets, metas, trunk);
    if hot == [] then [] else [Cluster(c.name, hot)]
  }

  function NowaitPart(c: Cluster, metas: Metas, trunk: set<Drv>): seq<Cluster>
  {
    var cold := ColdTargets(c.targets, metas, trunk);
    if cold == [] then [] else [Cluster(c.name, cold)]
  }

  function Gated(cs: seq<Cluster>, metas: Metas, trunk: set<Drv>): seq<Cluster>
  {
    if cs == [] then []
    else Gated(cs[..|cs| - 1], metas, trunk) + GatedPart(cs[|cs| - 1], metas, trunk)
  }

  function Nowait(cs: seq<Cluster>, metas: Metas, trunk: set<Drv>): seq<Cluster>
  {
    if cs == [] then []
    else Nowait(cs[..|cs| - 1], metas, trunk) + NowaitPart(cs[|cs| - 1], metas, trunk)
  }

  /** Splits each cluster by which members need the trunk. */
  method PartitionGated(cs: seq<Cluster>, metas: Metas, trunk: set<Drv>)
    returns (gated: seq<Cluster>, nowait: seq<Cluster>)
    requires Known(cs, metas)
    ensures gated == Gated(cs, metas, trunk) && nowait == Nowait(cs, metas, trunk)
  {
    gated, nowait := [], [];
    for n := 0 to |cs|
      invariant gated == Gated(cs[..n], metas, trunk) && nowait == Nowait(cs[..n], metas, trunk)
    {
      PartitionSnoc(cs, metas, trunk, n);
      var hot := HotTargets(cs[n].targets, metas, trunk);
      var cold := ColdTargets(cs[n].targets, metas, trunk);
      if hot != [] {
        gated := gated + [Cluster(cs[n].name, hot)];
      }
      if cold != [] {
        nowait := nowait + [Cluster(cs[n].name, cold)];
      }
    }
    assert cs[..|cs|] == cs;
  }

  lemma PartitionSnoc(cs: seq<Cluster>, metas: Metas, trunk: set<Drv>, n: nat)
    requires n < |cs|
    ensures Gated(cs[..n + 1], metas, trunk) == Gated(cs[..n], metas, trunk) + GatedPart(cs[n], metas, trunk)
    ensures Nowait(cs[..n + 1], metas, trunk) == Nowait(cs[..n], metas, trunk) + NowaitPart(cs[n], metas, trunk)
  {
    assert cs[..n + 1][..n] == cs[..n];
  }

  lemma {:induction false} PartitionTargets(cs: seq<Cluster>, metas: Metas, trunk: set<Drv>)
    ensures AllTargets(Gated(cs, metas, trunk)) == HotTargets(AllTargets(cs), metas, trunk)
    ensures AllTargets(Nowait(cs, metas, trunk)) == ColdTargets(AllTargets(cs), metas, trunk)
  {
    if cs != [] {
      var init, last := cs[..|cs| - 1], cs[|cs| - 1];
      PartitionTargets(init, metas, trunk);
      assert cs == init + [last];
      AllTargetsConcat(init, [last]);
      OneTarget(last);
      GatedStep(init, last, metas, trunk);
      NowaitStep(init, last, metas, trunk);
    }
  }

  lemma GatedStep(init: seq<Cluster>, last: Cluster, metas: Metas, trunk: set<Drv>)
    requires AllTargets(Gated(init, metas, trunk)) == HotTargets(AllTargets(init), metas, trunk)
    ensures AllTargets(Gated(init, metas, trunk) + GatedPart(last, metas, trunk))
         == HotTargets(AllTargets(init) + last.targets, metas, trunk)
  {
    FilterConcat(AllTargets(init), last.targets, t => IsHot(metas, trunk, t));
    AllTargetsConcat(Gated(init, metas, trunk), GatedPart(last, metas, trunk));
    OneTarget(Cluster(last.name, HotTargets(last.targets, metas, trunk)));
  }

  lemma NowaitStep(init: seq<Cluster>, last: Cluster, metas: Metas, trunk: set<Drv>)
    requires AllTargets(Nowait(init, metas, trunk)) == ColdTargets(AllTargets(init), metas, trunk)
    ensures AllTargets(Nowait(init, metas, trunk) + NowaitPart(last, metas, trunk))
         == ColdTargets(AllTargets(init) + last.targets, metas, trunk)
  {
    FilterConcat(AllTargets(init), last.targets, t => !IsHot(metas, trunk, t));
    AllTargetsConcat(Nowait(init, metas, trunk), NowaitPart(last, metas, trunk));
    OneTarget(Cluster(last.name, ColdTargets(last.targets, metas, trunk)));
  }

  lemma OneTarget(c: Cluster)
    ensures AllTargets([c]) == c.targets
  {
    assert [c][1..] == [] && AllTargets([c]) == c.targets + AllTargets([]);
  }

  lemma {:induction false} FilterConcat(a: seq<string>, b: seq<string>, keep: string -> bool)
    ensures Filter(a + b, keep) == Filter(a, keep) + Filter(b, keep)
  {
    if a == [] {
      assert a + b == b;
    } else {
      assert a + b == [a[0]] + (a[1..] + b);
      FilterConcat(a[1..], b, keep);
      FilterCons(a[0], a[1..] + b, keep);
      FilterCons(a[0], a[1..], keep);
      assert a == [a[0]] + a[1..];
    }
  }

  lemma FilterCons(x: string, rest: seq<string>, keep: string -> bool)
    ensures Filter([x] + rest, keep) == (if keep(x) then [x] else []) + Filter(rest, keep)
  {
    assert ([x] + rest)[1..] == rest;
  }

  lemma {:induction false} PartitionNonEmpty(cs: seq<Cluster>, metas: Metas, trunk: set<Drv>)
    ensures forall c :: c in Gated(cs, metas, trunk) ==> c.targets != []
    ensures forall c :: c in Nowait(cs, metas, trunk) ==> c.targets != []
  {
    if cs != [] {
      PartitionNonEmpty(cs[..|cs| - 1], metas, trunk);
    }
  }

  // ----- drvs -----

  function Attach(c: Cluster, metas: Metas): Entry
    requires forall t :: t in c.targets ==> t in metas
  {
    Entry(c.name, c.targets, seq(|c.targets|, i requires 0 <= i < |c.targets| => metas[c.targets[i]].drv))
  }

  function AttachDrvs(cs: seq<Cluster>, metas: Metas): (entries: seq<Entry>)
    requires Known(cs, metas)
    ensures |entries| == |cs|
  {
    seq(|cs|, i requires 0 <= i < |cs| => Attach(cs[i], metas))
  }

  lemma {:induction false} ListedTarget(cs: seq<Cluster>, t: string) returns (i: nat)
    requires t in AllTargets(cs)
    ensures i < |cs| && t in cs[i].targets
  {
    if t in cs[0].targets {
      i := 0;
    } else {
      var j := ListedTarget(cs[1..], t);
      i := j + 1;
    }
  }

  /** Splitting clusters introduces no new targets. */
  lemma PartitionKnown(cs: seq<Cluster>, metas: Metas, trunk: set<Drv>)
    requires Known(cs, metas)
    ensures Known(Gated(cs, metas, trunk), metas) && Known(Nowait(cs, metas, trunk), metas)
  {
    PartitionTargets(cs, metas, trunk);
    forall t | t in AllTargets(cs)
      ensures t in metas
    {
      var i := ListedTarget(cs, t);
    }
    PartKnown(Gated(cs, metas, trunk), AllTargets(cs), t => IsHot(metas, trunk, t), metas);
    PartKnown(Nowait(cs, metas, trunk), AllTargets(cs), t => !IsHot(metas, trunk, t), metas);
  }

  lemma PartKnown(part: seq<Cluster>, all: seq<string>, keep: string -> bool, metas: Metas)
    requires AllTargets(part) == Filter(all, keep)
    requires forall t :: t in all ==> t in metas
    ensures Known(part, metas)
  {
    forall i, t | 0 <= i < |part| && t in part[i].targets
      ensures t in metas
    {
      TargetListed(part, i, t);
      FilterCount(all, keep, t);
      assert t in multiset(Filter(all, keep));
      assert t in multiset(all);
    }
  }

  // ----- the matrices -----

  /** The entries of one kind that wait for the warm stage. */
  ghost function GatedEntries(pend: Pend, size: nat, trunk: set<Drv>, kind: Kind): seq<Entry>
    requires size > 0
  {
    var cs, metas := ClustersOf(pend, kind, size), MetasOf(pend, kind);
    ClustersKnown(pend, kind, size);
    PartitionKnown(cs, metas, trunk);
    AttachDrvs(if IsSplitKind(kind) then Gated(cs, metas, trunk) else cs, metas)
  }

  /** The entries of one kind that start at once. */
  ghost function NowaitEntries(pend: Pend, size: nat, trunk: set<Drv>, kind: Kind): seq<Entry>
    requires size > 0
  {
    var cs, metas := ClustersOf(pend, kind, size), MetasOf(pend, kind);
    ClustersKnown(pend, kind, size);
    PartitionKnown(cs, metas, trunk);
    if IsSplitKind(kind) then AttachDrvs(Nowait(cs, metas, trunk), metas) else []
  }

  /** (target, drv) pairs of a list of entries. */
  ghost function Pairs(entries: seq<Entry>): seq<(string, Drv)>
    requires forall e :: e in entries ==> |e.targets| == |e.drvs|
  {
    if entries == [] then []
    else
      var e := entries[0];
      seq(|e.targets|, i requires 0 <= i < |e.targets| => (e.targets[i], e.drvs[i])) + Pairs(entries[1..])
  }

  ghost function WithDrvs(ts: seq<string>, metas: Metas): seq<(string, Drv)>
    requires forall t :: t in ts ==> t in metas
  {
    seq(|ts|, i requires 0 <= i < |ts| => (ts[i], metas[ts[i]].drv))
  }

  lemma WellFormedEntries(cs: seq<Cluster>, metas: Metas)
    requires Known(cs, metas)
    ensures forall e :: e in AttachDrvs(cs, metas) ==> |e.targets| == |e.drvs|
    ensures forall t :: t in AllTargets(cs) ==> t in metas
  {
    forall t | t in AllTargets(cs)
      ensures t in metas
    {
      var i := ListedTarget(cs, t);
    }
  }

  /** Each target keeps its own drv at the matching position. */
  lemma WithDrvsConcat(a: seq<string>, b: seq<string>, metas: Metas)
    requires forall t :: t in a + b ==> t in metas
    ensures (forall t :: t in a ==> t in metas) && (forall t :: t in b ==> t in metas)
    ensures WithDrvs(a + b, metas) == WithDrvs(a, metas) + WithDrvs(b, metas)
  {
    assert forall t :: t in a || t in b ==> t in a + b;
  }

  lemma PairsHead(entries: seq<Entry>, c: Cluster, metas: Metas)
    requires entries != [] && forall e :: e in entries ==> |e.targets| == |e.drvs|
    requires (forall t :: t in c.targets ==> t in metas) && entries[0] == Attach(c, metas)
    ensures Pairs(entries) == WithDrvs(c.targets, metas) + Pairs(entries[1..])
  {
  }

  lemma {:induction false} PairsOfAttach(cs: seq<Cluster>, metas: Metas)
    requires Known(cs, metas)
    requires forall e :: e in AttachDrvs(cs, metas) ==> |e.targets| == |e.drvs|
    requires forall t :: t in AllTargets(cs) ==> t in metas
    ensures Pairs(AttachDrvs(cs, metas)) == WithDrvs(AllTargets(cs), metas)
  {
    if cs != [] {
      assert AttachDrvs(cs, metas)[1..] == AttachDrvs(cs[1..], metas);
      WithDrvsConcat(cs[0].targets, AllTargets(cs[1..]), metas);
      PairsOfAttach(cs[1..], metas);
      PairsHead(AttachDrvs(cs, metas), cs[0], metas);
    }
  }

  lemma {:induction false} WithDrvsCount(ts: seq<string>, metas: Metas, t: string, d: Drv)
    requires forall x :: x in ts ==> x in metas
    ensures multiset(WithDrvs(ts, metas))[(t, d)] == if t in metas && metas[t].drv == d then multiset(ts)[t] else 0
  {
    if ts != [] {
      WithDrvsCount(ts[1..], metas, t, d);
      assert WithDrvs(ts, metas) == [(ts[0], metas[ts[0]].drv)] + WithDrvs(ts[1..], metas);
      assert ts == [ts[0]] + ts[1..];
    }
  }

  lemma EntriesCount(cs: seq<Cluster>, metas: Metas, t: string, d: Drv)
    requires Known(cs, metas)
    ensures forall e :: e in AttachDrvs(cs, metas) ==> |e.targets| == |e.drvs|
    ensures multiset(Pairs(AttachDrvs(cs, metas)))[(t, d)]
         == if t in metas && metas[t].drv == d then multiset(AllTargets(cs))[t] else 0
  {
    WellFormedEntries(cs, metas);
    PairsOfAttach(cs, metas);
    WithDrvsCount(AllTargets(cs), metas, t, d);
  }

  /** How often target `t` is scheduled with drv `d`. */
  ghost function Scheduled(entries: seq<Entry>, t: string, d: Drv): nat
    requires forall e :: e in entries ==> |e.targets| == |e.drvs|
  {
    multiset(Pairs(entries))[(t, d)]
  }

  ghost predicate AllWellFormed(entries: seq<Entry>)
  {
    forall e :: e in entries ==> |e.targets| == |e.drvs| && e.targets != []
  }

  lemma AttachWellFormed(cs: seq<Cluster>, metas: Metas)
    requires Known(cs, metas) && forall c :: c in cs ==> c.targets != []
    ensures AllWellFormed(AttachDrvs(cs, metas))
  {
  }

  lemma EntriesWellFormed(pend: Pend, size: nat, trunk: set<Drv>, kind: Kind)
    requires size > 0
    ensures AllWellFormed(GatedEntries(pend, size, trunk, kind))
    ensures AllWellFormed(NowaitEntries(pend, size, trunk, kind))
  {
    var cs, metas := ClustersOf(pend, kind, size), MetasOf(pend, kind);
    ClustersKnown(pend, kind, size);
    ClustersConserve(pend, kind, size);
    PartitionKnown(cs, metas, trunk);
    PartitionNonEmpty(cs, metas, trunk);
    AttachWellFormed(cs, metas);
    AttachWellFormed(Gated(cs, metas, trunk), metas);
    AttachWellFormed(Nowait(cs, metas, trunk), metas);
  }

  lemma NameCount(pend: Pend, kind: Kind, t: string)
    ensures multiset(Names(pend, kind))[t] == if t in MetasOf(pend, kind) then 1 else 0
  {
    MultiplicityOne(Names(pend, kind), t);
    assert t in Names(pend, kind) <==> t in multiset(Names(pend, kind));
  }

  /** Nothing is silently dropped: each pending entry of a kind is scheduled exactly once across the
      kind's gated and nowait matrices, with its own drv, and nothing else is scheduled. */
  lemma Conservation(pend: Pend, size: nat, trunk: set<Drv>, kind: Kind, t: string, d: Drv)
    requires size > 0
    ensures AllWellFormed(GatedEntries(pend, size, trunk, kind))
    ensures AllWellFormed(NowaitEntries(pend, size, trunk, kind))
    ensures Scheduled(GatedEntries(pend, size, trunk, kind), t, d) + Scheduled(NowaitEntries(pend, size, trunk, kind), t, d)
         == if t in MetasOf(pend, kind) && MetasOf(pend, kind)[t].drv == d then 1 else 0
  {
    var cs, metas := ClustersOf(pend, kind, size), MetasOf(pend, kind);
    EntriesWellFormed(pend, size, trunk, kind);
    ClustersKnown(pend, kind, size);
    ClustersConserve(pend, kind, size);
    NameCount(pend, kind, t);
    if IsSplitKind(kind) {
      PartitionKnown(cs, metas, trunk);
      PartitionTargets(cs, metas, trunk);
      FilterCount(AllTargets(cs), x => IsHot(metas, trunk, x), t);
      FilterCount(AllTargets(cs), x => !IsHot(metas, trunk, x), t);
      EntriesCount(Gated(cs, metas, trunk), metas, t, d);
      EntriesCount(Nowait(cs, metas, trunk), metas, t, d);
    } else {
      EntriesCount(cs, metas, t, d);
    }
  }

  /** For the split kinds, an entry starts without waiting exactly if it needs no trunk drv. */
  lemma NowaitExactly(pend: Pend, size: nat, trunk: set<Drv>, kind: Kind, t: string)
    requires size > 0 && IsSplitKind(kind) && t in MetasOf(pend, kind)
    ensures (exists e :: e in NowaitEntries(pend, size, trunk, kind) && t in e.targets)
         <==> MetasOf(pend, kind)[t].needed !! trunk
    ensures (exists e :: e in GatedEntries(pend, size, trunk, kind) && t in e.targets)
         <==> !(MetasOf(pend, kind)[t].needed !! trunk)
  {
    var cs, metas := ClustersOf(pend, kind, size), MetasOf(pend, kind);
    ClustersKnown(pend, kind, size);
    PartitionKnown(cs, metas, trunk);
    EntryHolds(Gated(cs, metas, trunk), metas, t);
    EntryHolds(Nowait(cs, metas, trunk), metas, t);
    ClustersConserve(pend, kind, size);
    NameCount(pend, kind, t);
    SplitCount(cs, metas, trunk, t);
    HotOverlaps(metas, trunk, t);
  }

  lemma SplitCount(cs: seq<Cluster>, metas: Metas, trunk: set<Drv>, t: string)
    ensures multiset(AllTargets(Gated(cs, metas, trunk)))[t]
         == if IsHot(metas, trunk, t) then multiset(AllTargets(cs))[t] else 0
    ensures multiset(AllTargets(Nowait(cs, metas, trunk)))[t]
         == if IsHot(metas, trunk, t) then 0 else multiset(AllTargets(cs))[t]
  {
    PartitionTargets(cs, metas, trunk);
    FilterCount(AllTargets(cs), x => IsHot(metas, trunk, x), t);
    FilterCount(AllTargets(cs), x => !IsHot(metas, trunk, x), t);
  }

  lemma HotOverlaps(metas: Metas, trunk: set<Drv>, t: string)
    requires t in metas
    ensures IsHot(metas, trunk, t) <==> !(metas[t].needed !! trunk)
  {
    if d :| d in metas[t].needed && d in trunk {
      assert d in metas[t].needed * trunk;
    }
  }

  lemma EntryHolds(cs: seq<Cluster>, metas: Metas, t: string)
    requires Known(cs, metas)
    ensures (exists e :: e in AttachDrvs(cs, metas) && t in e.targets) <==> multiset(AllTargets(cs))[t] > 0
  {
    var entries := AttachDrvs(cs, metas);
    if e :| e in entries && t in e.targets {
      var i :| 0 <= i < |entries| && entries[i] == e;
      TargetListed(cs, i, t);
    }
    if t in AllTargets(cs) {
      var i := ListedTarget(cs, t);
      assert entries[i] in entries && t in entries[i].targets;
    }
  }

  // ----- the warm shards -----

  lemma ComponentsPackable(needs: seq<Need>, trunk: set<Drv>, comps: seq<Component>)
    requires IsComponents(needs, trunk, comps)
    ensures PairwiseDisjoint(comps) && NonEmpty(comps) && LargestFirst(comps)
  {
    forall i | 0 <= i < |comps|
      ensures comps[i].drvs != {}
    {
      assert comps[i] in comps;
    }
  }

  /** A component is on shard b exactly if the packer chose b for it. */
  lemma ChosenHolds(comps: seq<Component>, a: seq<nat>, i: nat, x: Drv, b: nat)
    requires PairwiseDisjoint(comps) && |a| == |comps| && i < |comps| && x in comps[i].drvs
    ensures x in ShardDrvs(comps, a, b) <==> a[i] == b
  {
    if a[i] == b { assert x in ShardDrvs(comps, a, b); }
    if x in ShardDrvs(comps, a, b) {
      var j :| 0 <= j < |a| && a[j] == b && x in comps[j].drvs;
      assert i == j;
    }
  }

  /** The warm shards share out the trunk: every trunk drv is in exactly one shard, connected drvs in
      the same one, and nothing outside the trunk is listed. */
  ghost predicate SharesOut(needs: seq<Need>, trunk: set<Drv>, warm: seq<Shard>)
  {
    && (forall b, d :: 0 <= b < |warm| && d in warm[b].drvs ==> d in trunk)
    && (forall d :: d in trunk ==> exists b :: 0 <= b < |warm| && d in warm[b].drvs)
    && (forall b, c, x, y | 0 <= b < |warm| && 0 <= c < |warm| && x in warm[b].drvs && y in warm[c].drvs ::
          Connected(needs, trunk, x, y) ==> b == c)
  }

  lemma WarmSharesTrunk(needs: seq<Need>, trunk: set<Drv>, comps: seq<Component>)
    requires IsComponents(needs, trunk, comps)
    ensures |Shards(comps, MAX_WARM_SHARDS)| <= MAX_WARM_SHARDS
    ensures SharesOut(needs, trunk, Shards(comps, MAX_WARM_SHARDS))
  {
    ComponentsPackable(needs, trunk, comps);
    ShardsAreChoices(comps, MAX_WARM_SHARDS);
    var k := BinCount(comps, MAX_WARM_SHARDS);
    var warm, a := Shards(comps, MAX_WARM_SHARDS), Choices(comps, |comps|, k);
    WarmHoldsTrunk(trunk, comps, warm, a);
    WarmKeepsTogether(needs, trunk, comps, warm, a);
  }

  lemma WarmHoldsTrunk(trunk: set<Drv>, comps: seq<Component>, warm: seq<Shard>, a: seq<nat>)
    requires Covers(comps, trunk) && PairwiseDisjoint(comps) && |a| == |comps|
    requires forall i :: 0 <= i < |a| ==> a[i] < |warm|
    requires forall b :: 0 <= b < |warm| ==> Ships(warm[b], comps, a, b)
    ensures forall b, d :: 0 <= b < |warm| && d in warm[b].drvs ==> d in trunk
    ensures forall d :: d in trunk ==> exists b :: 0 <= b < |warm| && d in warm[b].drvs
  {
    forall b, d | 0 <= b < |warm| && d in warm[b].drvs
      ensures d in trunk
    {
      assert Ships(warm[b], comps, a, b);
      assert d in ShardDrvs(comps, a, b);
    }
    forall d | d in trunk
      ensures exists b :: 0 <= b < |warm| && d in warm[b].drvs
    {
      var i :| 0 <= i < |comps| && d in comps[i].drvs;
      assert Ships(warm[a[i]], comps, a, a[i]);
      ChosenHolds(comps, a, i, d, a[i]);
    }
  }

  lemma WarmKeepsTogether(needs: seq<Need>, trunk: set<Drv>, comps: seq<Component>, warm: seq<Shard>, a: seq<nat>)
    requires AllClasses(needs, trunk, comps) && Covers(comps, trunk) && PairwiseDisjoint(comps) && |a| == |comps|
    requires forall b :: 0 <= b < |warm| ==> Ships(warm[b], comps, a, b)
    ensures forall b, c, x, y | 0 <= b < |warm| && 0 <= c < |warm| && x in warm[b].drvs && y in warm[c].drvs ::
              Connected(needs, trunk, x, y) ==> b == c
  {
    forall b, c, x, y | 0 <= b < |warm| && 0 <= c < |warm| && x in warm[b].drvs && y in warm[c].drvs
      && Connected(needs, trunk, x, y)
      ensures b == c
    {
      assert Ships(warm[b], comps, a, b) && Ships(warm[c], comps, a, c);
      SameShard(needs, trunk, comps, a, b, c, x, y);
    }
  }

  lemma SameShard(needs: seq<Need>, trunk: set<Drv>, comps: seq<Component>, a: seq<nat>, b: nat, c: nat, x: Drv, y: Drv)
    requires AllClasses(needs, trunk, comps) && Covers(comps, trunk) && PairwiseDisjoint(comps) && |a| == |comps|
    requires x in ShardDrvs(comps, a, b) && y in ShardDrvs(comps, a, c) && Connected(needs, trunk, x, y)
    ensures b == c
  {
    var i :| 0 <= i < |comps| && x in comps[i].drvs;
    assert comps[i] in comps && IsClass(needs, trunk, comps[i]);
    ChosenHolds(comps, a, i, x, b);
    assert y in trunk;
    ChosenHolds(comps, a, i, y, c);
  }

  // ----- end to end -----

  /** Everything `build_outputs` promises about its matrices and warm shards. */
  ghost predicate IsPlan(pend: Pend, size: nat, trunk: set<Drv>, comps: seq<Component>, out: Outputs)
    requires size > 0
  {
    && IsTrunk(Needs(pend, size), trunk)
    && IsComponents(Needs(pend, size), trunk, comps)
    && out.warm == Shards(comps, MAX_WARM_SHARDS)
    && out.checks == GatedEntries(pend, size, trunk, "checks")
    && out.checksNowait == NowaitEntries(pend, size, trunk, "checks")
    && out.formal == GatedEntries(pend, size, trunk, "formal")
    && out.formalNowait == NowaitEntries(pend, size, trunk, "formal")
    && out.fuzz == GatedEntries(pend, size, trunk, "fuzz")
    && out.vmTest == GatedEntries(pend, size, trunk, "vm-test")
    && out.coverage == GatedEntries(pend, size, trunk, "coverage")
  }

  method BuildMatrix(pend: Pend, size: nat, trunk: set<Drv>, kind: Kind)
    returns (gated: seq<Entry>, nowait: seq<Entry>)
    requires size > 0
    ensures gated == GatedEntries(pend, size, trunk, kind)
    ensures nowait == NowaitEntries(pend, size, trunk, kind)
  {
    var cs, metas := ClustersOf(pend, kind, size), MetasOf(pend, kind);
    ClustersKnown(pend, kind, size);
    if IsSplitKind(kind) {
      var hot, cold := PartitionGated(cs, metas, trunk);
      PartitionKnown(cs, metas, trunk);
      gated, nowait := AttachDrvs(hot, metas), AttachDrvs(cold, metas);
    } else {
      gated, nowait := AttachDrvs(cs, metas), [];
    }
  }

  /** No outputs are produced exactly when FORMAL_SHARD_SIZE is invalid. */
  method BuildOutputs(results: seq<EvalResult>, knob: Knob)
    returns (out: Option<Outputs>, ghost trunk: set<Drv>, ghost comps: seq<Component>)
    ensures out.None? <==> FormalShardSize(knob).None?
    ensures out.Some? ==> IsPlan(Pending(results), FormalShardSize(knob).value, trunk, comps, out.value)
  {
    trunk, comps := {}, [];
    var pend := CollectPending(results);
    var knobSize := FormalShardSize(knob);
    if knobSize.None? {
      return None, trunk, comps;
    }
    var size := knobSize.value;
    var needs := CollectNeeds(pend, size);
    var shared := GlobalTrunk(needs);
    var components := Components.TrunkComponents(shared, needs);
    var warm := PackShards(components, MAX_WARM_SHARDS);
    var checks, checksNowait := BuildMatrix(pend, size, shared, "checks");
    var formal, formalNowait := BuildMatrix(pend, size, shared, "formal");
    var fuzz, _ := BuildMatrix(pend, size, shared, "fuzz");
    var vmTest, _ := BuildMatrix(pend, size, shared, "vm-test");
    var coverage, _ := BuildMatrix(pend, size, shared, "coverage");
    out := Some(Outputs(warm, checks, checksNowait, formal, formalNowait, fuzz, vmTest, coverage));
    trunk, comps := shared, components;
  }
}

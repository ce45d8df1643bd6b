/** In what order the clusters of a kind come, and the names in a cluster: the emitted matrices are the same whatever
    order the results come in. */
module ClusterOrder {

  import opened Options
  import opened Ordering
  import opened Clusters
  import opened FormalShards
  import opened ClusterFacts

  /** The targets of every cluster are in name order. */
  ghost predicate TargetsSorted(cs: seq<Cluster>)
  {
    forall c :: c in cs ==> Sorted(c.targets, StrLe)
  }

  lemma SortedNames(names: seq<string>)
    ensures Sorted(Sort(names, StrLe), StrLe)
  {
    StrTotalOrder();
    SortSorts(names, StrLe);
  }

  // ----- checks, coverage and the kinds that stand alone -----

  lemma ChecksOrder(names: seq<string>)
    ensures TargetsSorted(ClusterChecks(names))
    ensures forall i, j :: 0 <= i < j < |ClusterChecks(names)| ==>
      ClusterChecks(names)[i].name != ClusterChecks(names)[j].name && StrLe(ClusterChecks(names)[i].name, ClusterChecks(names)[j].name)
  {
    var groups := SortedSet(GroupsOf(names));
    forall c | c in ClusterChecks(names)
      ensures Sorted(c.targets, StrLe)
    {
      SortedNames(InGroup(names, c.name));
    }
  }

  lemma SinglesOrder(names: seq<string>)
    requires Sorted(names, StrLe)
    ensures TargetsSorted(Singles(names))
    ensures forall i, j :: 0 <= i < j < |Singles(names)| ==> StrLe(Singles(names)[i].name, Singles(names)[j].name)
  {
  }

  lemma AloneOrder(names: seq<string>)
    ensures TargetsSorted(Singletons(names))
    ensures forall i, j :: 0 <= i < j < |Singletons(names)| ==> StrLe(Singletons(names)[i].name, Singletons(names)[j].name)
  {
    SortedNames(names);
    SinglesOrder(Sort(names, StrLe));
  }

  /** The unit cluster is first, the others follow in name order. */
  lemma CoverageOrder(names: seq<string>, i: nat, j: nat, t: string, u: string)
    requires var cs := ClusterCoverage(names); i < j < |cs| && t in cs[i].targets && u in cs[j].targets
    ensures TargetsSorted(ClusterCoverage(names))
    ensures !IsUnit(u) && (!IsUnit(t) ==> StrLe(t, u))
  {
    var unit := Sort(Filter(names, x => StartsWith(x, "unit-")), StrLe);
    var rest := Sort(Filter(names, x => !StartsWith(x, "unit-")), StrLe);
    SortedNames(Filter(names, x => StartsWith(x, "unit-")));
    SortedNames(Filter(names, x => !StartsWith(x, "unit-")));
    UnitNames(names, t);
    UnitNames(names, u);
    FrontOrder(if unit == [] then [] else [Cluster("unit", unit)], rest, i, j, t, u);
  }

  lemma FrontOrder(front: seq<Cluster>, rest: seq<string>, i: nat, j: nat, t: string, u: string)
    requires Sorted(rest, StrLe) && TargetsSorted(front) && |front| <= 1
    requires var cs := front + Singles(rest); i < j < |cs| && t in cs[i].targets && u in cs[j].targets
    ensures TargetsSorted(front + Singles(rest))
    ensures u in rest && ((front != [] && t in front[0].targets) || (t in rest && StrLe(t, u)))
  {
    SinglesOrder(rest);
    assert forall c :: c in front + Singles(rest) <==> c in front || c in Singles(rest);
  }

  // ----- proofs -----

  /** Kani proofs come first, then the proofs that need a runner alone, then the shards. */
  ghost function Rank(heap: map<string, Option<int>>, t: string): nat
  {
    if IsKaniName(t) then 0 else if NeedsAlone(heap, t) then 1 else 2
  }

  lemma StrideAt(s: seq<string>, i: nat, c: nat, j: nat) returns (x: nat)
    requires i < c && j < |Stride(s, i, c)|
    ensures x == i + j * c < |s| && Stride(s, i, c)[j] == s[x]
  {
    StrideInRange(|s|, i, c, j);
    x := i + j * c;
  }

  lemma StrideSorted(s: seq<string>, i: nat, c: nat)
    requires i < c && Sorted(s, StrLe)
    ensures Sorted(Stride(s, i, c), StrLe)
  {
    forall j, k | 0 <= j < k < |Stride(s, i, c)|
      ensures StrLe(Stride(s, i, c)[j], Stride(s, i, c)[k])
    {
      StrideGrows(s, i, c, j, k);
    }
  }

  lemma StrideGrows(s: seq<string>, i: nat, c: nat, j: nat, k: nat)
    requires i < c && Sorted(s, StrLe) && j < k < |Stride(s, i, c)|
    ensures StrLe(Stride(s, i, c)[j], Stride(s, i, c)[k])
  {
    var x := StrideAt(s, i, c, j);
    var y := StrideAt(s, i, c, k);
    assert x < y by { MulGap(j, k, c); }
  }

  lemma DealSorted(light: seq<string>, size: nat)
    requires size > 0 && Sorted(light, StrLe)
    ensures TargetsSorted(DealAll(light, size))
  {
    var cs := DealAll(light, size);
    forall c | c in cs
      ensures Sorted(c.targets, StrLe)
    {
      CeilDivBounds(|light|, size);
      var i :| 0 <= i < |cs| && cs[i] == c;
      StrideSorted(light, i, CeilDiv(|light|, size));
    }
  }

  /** Where the cluster at `i` stands and what it holds. */
  lemma FormalBlock(kani: seq<string>, heavy: seq<string>, dealt: seq<Cluster>, cs: seq<Cluster>, i: nat, t: string)
    requires cs == Singles(kani) + Singles(heavy) + dealt && i < |cs| && t in cs[i].targets
    ensures i < |kani| ==> t == kani[i]
    ensures |kani| <= i < |kani| + |heavy| ==> t == heavy[i - |kani|]
    ensures |kani| + |heavy| <= i ==> i - |kani| - |heavy| < |dealt| && cs[i] == dealt[i - |kani| - |heavy|]
  {
  }

  /** Which block a name of a rank is in. */
  lemma BlockRank(names: seq<string>, size: nat, heap: map<string, Option<int>>, i: nat, t: string)
    requires size > 0 && i < |ClusterFormal(names, size, heap)| && t in ClusterFormal(names, size, heap)[i].targets
    ensures var k, h := |KaniNames(names)|, |HeavyNames(names, heap)|;
            Rank(heap, t) == if i < k then 0 else if i < k + h then 1 else 2
  {
    var kani, heavy, light := KaniNames(names), HeavyNames(names, heap), LightNames(names, heap);
    FormalBlock(kani, heavy, DealAll(light, size), ClusterFormal(names, size, heap), i, t);
    FormalNames(names, heap, t);
    if |kani| + |heavy| <= i {
      DealtAreLight(light, size, ClusterFormal(names, size, heap)[i], t);
    }
  }

  lemma FormalOrder(names: seq<string>, size: nat, heap: map<string, Option<int>>, i: nat, j: nat, t: string, u: string)
    requires size > 0
    requires var cs := ClusterFormal(names, size, heap); i < j < |cs| && t in cs[i].targets && u in cs[j].targets
    ensures Rank(heap, t) <= Rank(heap, u) && (Rank(heap, t) == Rank(heap, u) < 2 ==> StrLe(t, u))
  {
    var kani, heavy, light := KaniNames(names), HeavyNames(names, heap), LightNames(names, heap);
    SortedNames(Filter(names, x => IsKani(x)));
    SortedNames(Filter(Filter(names, x => !IsKani(x)), x => IsHeavy(heap, x)));
    BlockRank(names, size, heap, i, t);
    BlockRank(names, size, heap, j, u);
    FormalBlock(kani, heavy, DealAll(light, size), ClusterFormal(names, size, heap), i, t);
    FormalBlock(kani, heavy, DealAll(light, size), ClusterFormal(names, size, heap), j, u);
  }

  /** The shards come in the order of their numbers. */
  lemma ShardsNumbered(light: seq<string>, size: nat, i: nat)
    requires size > 0 && i < |DealAll(light, size)|
    ensures light != [] && i < CeilDiv(|light|, size) && DealAll(light, size)[i].name == ShardLabel(i, CeilDiv(|light|, size))
  {
  }

  lemma FormalTargetsSorted(names: seq<string>, size: nat, heap: map<string, Option<int>>)
    requires size > 0
    ensures TargetsSorted(ClusterFormal(names, size, heap))
  {
    var kani, heavy, light := KaniNames(names), HeavyNames(names, heap), LightNames(names, heap);
    SortedNames(Filter(Filter(names, x => !IsKani(x)), x => !IsHeavy(heap, x)));
    DealSorted(light, size);
    ThreeSorted(kani, heavy, DealAll(light, size), ClusterFormal(names, size, heap));
  }

  lemma ThreeSorted(kani: seq<string>, heavy: seq<string>, dealt: seq<Cluster>, cs: seq<Cluster>)
    requires cs == Singles(kani) + Singles(heavy) + dealt && TargetsSorted(dealt)
    ensures TargetsSorted(cs)
  {
    forall c | c in cs
      ensures Sorted(c.targets, StrLe)
    {
      assert c in Singles(kani) || c in Singles(heavy) || c in dealt;
    }
  }
}

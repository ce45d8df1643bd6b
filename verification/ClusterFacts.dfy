/** Which cluster a name goes to, kind by kind, and what the cluster is called. */
module ClusterFacts {

  import opened Options
  import opened Ordering
  import opened Clusters
  import opened FormalShards

  /** A cluster called `n` holds `t`. */
  ghost predicate InCluster(cs: seq<Cluster>, n: string, t: string)
  {
    exists c :: c in cs && c.name == n && t in c.targets
  }

  /** One cluster holds both. */
  ghost predicate Together(cs: seq<Cluster>, t: string, u: string)
  {
    exists c :: c in cs && t in c.targets && u in c.targets
  }

  lemma KeptNames(names: seq<string>, keep: string -> bool, t: string)
    ensures t in Filter(names, keep) <==> t in names && keep(t)
    ensures t in Sort(Filter(names, keep), StrLe) <==> t in names && keep(t)
  {
    FilterCount(names, keep, t);
    assert t in Filter(names, keep) <==> t in multiset(Filter(names, keep));
    assert t in names <==> t in multiset(names);
    assert t in Sort(Filter(names, keep), StrLe) <==> t in multiset(Sort(Filter(names, keep), StrLe));
  }

  lemma Prefixed(s: string, p: string)
    ensures StartsWith(s, p) <==> exists x :: s == p + x
    ensures StartsWith(s, p) ==> s == p + s[|p|..]
  {
    if x :| s == p + x { assert s[..|p|] == p; }
    if StartsWith(s, p) { assert s == p + s[|p|..]; }
  }

  // ----- checks -----

  ghost predicate ClippyTest(name: string)
  {
    exists x :: x != "" && name == "clippy-test-" + x
  }

  /** The crate a per-crate check is about. */
  ghost predicate CheckOf(name: string, m: string)
  {
    m != "" && (name == "clippy-test-" + m || (name == "clippy-" + m && !ClippyTest(name)) || name == "doc-" + m || name == "nextest-" + m)
  }

  /** The cluster of a check: its crate, or `misc`. */
  ghost predicate CheckCluster(name: string, g: string)
  {
    CheckOf(name, g) || (g == "misc" && forall m :: !CheckOf(name, m))
  }

  /** `p` is stripped off and leaves `m`. */
  ghost predicate Strips(name: string, p: string, m: string)
  {
    m != "" && name == p + m
  }

  ghost predicate StripsNone(name: string, p: string)
  {
    forall m :: !Strips(name, p, m)
  }

  lemma StripsExactly(name: string, p: string)
    ensures StripsNone(name, p) <==> !(StartsWith(name, p) && |p| < |name|)
    ensures forall m :: Strips(name, p, m) ==> name[|p|..] == m
  {
    forall m | Strips(name, p, m)
      ensures StartsWith(name, p) && |p| < |name| && name[|p|..] == m
    {
      assert name[..|p|] == p;
    }
    if StartsWith(name, p) && |p| < |name| {
      Prefixed(name, p);
      assert Strips(name, p, name[|p|..]);
    }
  }

  /** The first prefix that leaves something decides. */
  lemma {:induction false} MemberExactly(name: string, ps: seq<string>, i: nat, m: string)
    requires i < |ps| && (forall j :: 0 <= j < i ==> StripsNone(name, ps[j])) && Strips(name, ps[i], m)
    ensures MemberOf(name, ps) == m
    decreases i
  {
    StripsExactly(name, ps[0]);
    if i > 0 {
      assert StripsNone(name, ps[0]);
      assert forall j :: 0 <= j < |ps[1..]| ==> ps[1..][j] == ps[j + 1];
      MemberExactly(name, ps[1..], i - 1, m);
    }
  }

  lemma {:induction false} MemberNone(name: string, ps: seq<string>)
    requires forall j :: 0 <= j < |ps| ==> StripsNone(name, ps[j])
    ensures MemberOf(name, ps) == "misc"
  {
    if ps != [] {
      StripsExactly(name, ps[0]);
      assert forall j :: 0 <= j < |ps[1..]| ==> ps[1..][j] == ps[j + 1];
      MemberNone(name, ps[1..]);
    }
  }

  lemma NotOthers(name: string, p: string, m: string, q: string)
    requires Strips(name, p, m) && p != "" && q != "" && p[0] != q[0]
    ensures StripsNone(name, q)
  {
    StripsHead(name, p, m);
    forall x
      ensures !Strips(name, q, x)
    {
      if Strips(name, q, x) { StripsHead(name, q, x); }
    }
  }

  lemma StripsHead(name: string, p: string, m: string)
    requires Strips(name, p, m) && p != ""
    ensures p <= name && name[0] == p[0]
  {
  }

  lemma CheckGroupOf(name: string, m: string)
    requires CheckOf(name, m)
    ensures CheckGroup(name) == m
  {
    var ps := ["clippy-test-", "clippy-", "doc-", "nextest-"];
    if Strips(name, "clippy-test-", m) {
      MemberExactly(name, ps, 0, m);
    } else if Strips(name, "clippy-", m) && !ClippyTest(name) {
      assert StripsNone(name, "clippy-test-");
      MemberExactly(name, ps, 1, m);
    } else if Strips(name, "doc-", m) {
      NotOthers(name, "doc-", m, "clippy-test-");
      NotOthers(name, "doc-", m, "clippy-");
      MemberExactly(name, ps, 2, m);
    } else {
      assert Strips(name, "nextest-", m);
      NotOthers(name, "nextest-", m, "clippy-test-");
      NotOthers(name, "nextest-", m, "clippy-");
      NotOthers(name, "nextest-", m, "doc-");
      MemberExactly(name, ps, 3, m);
    }
  }

  /** Without a crate the check is in `misc`. */
  lemma CheckGroupNone(name: string)
    requires forall m :: !CheckOf(name, m)
    ensures CheckGroup(name) == "misc"
  {
    var ps := ["clippy-test-", "clippy-", "doc-", "nextest-"];
    forall m
      ensures !Strips(name, "clippy-test-", m) && !Strips(name, "clippy-", m) && !Strips(name, "doc-", m) && !Strips(name, "nextest-", m)
    {
      assert !CheckOf(name, m);
      if Strips(name, "clippy-", m) && ClippyTest(name) {
        var x :| x != "" && name == "clippy-test-" + x;
        assert CheckOf(name, x);
      }
    }
    MemberNone(name, ps);
  }

  lemma CheckGroupExactly(name: string, g: string)
    ensures CheckGroup(name) == g <==> CheckCluster(name, g)
  {
    if m :| CheckOf(name, m) {
      CheckGroupOf(name, m);
      if CheckOf(name, g) { CheckGroupOf(name, g); }
    } else {
      CheckGroupNone(name);
    }
  }

  /** The clusters of checks, one per group. */
  lemma GroupCluster(names: seq<string>, i: nat, t: string)
    requires i < |ClusterChecks(names)|
    ensures t in ClusterChecks(names)[i].targets <==> t in names && CheckGroup(t) == ClusterChecks(names)[i].name
  {
    var g := SortedSet(GroupsOf(names))[i];
    KeptNames(names, x => CheckGroup(x) == g, t);
  }

  lemma GroupFound(names: seq<string>, t: string) returns (i: nat)
    requires t in names
    ensures i < |ClusterChecks(names)| && ClusterChecks(names)[i].name == CheckGroup(t)
  {
    var j :| 0 <= j < |names| && names[j] == t;
    assert CheckGroup(names[j]) in GroupsOf(names);
    var groups := SortedSet(GroupsOf(names));
    i :| 0 <= i < |groups| && groups[i] == CheckGroup(t);
  }

  /** A check is in the cluster of its crate, or in `misc`. */
  lemma ChecksNamed(names: seq<string>, n: string, t: string)
    ensures InCluster(ClusterChecks(names), n, t) <==> t in names && CheckCluster(t, n)
  {
    var cs := ClusterChecks(names);
    CheckGroupExactly(t, n);
    if InCluster(cs, n, t) {
      var c :| c in cs && c.name == n && t in c.targets;
      var i :| 0 <= i < |cs| && cs[i] == c;
      GroupCluster(names, i, t);
    }
    if t in names && CheckGroup(t) == n {
      var i := GroupFound(names, t);
      GroupCluster(names, i, t);
      assert cs[i] in cs;
    }
  }

  lemma GroupsTogether(names: seq<string>, t: string, u: string)
    requires t in names && u in names
    ensures Together(ClusterChecks(names), t, u) <==> CheckGroup(t) == CheckGroup(u)
  {
    var cs := ClusterChecks(names);
    if Together(cs, t, u) {
      var c :| c in cs && t in c.targets && u in c.targets;
      var i :| 0 <= i < |cs| && cs[i] == c;
      GroupCluster(names, i, t);
      GroupCluster(names, i, u);
    }
    if CheckGroup(t) == CheckGroup(u) {
      var i := GroupFound(names, t);
      GroupCluster(names, i, t);
      GroupCluster(names, i, u);
      assert cs[i] in cs;
    }
  }

  /** Two checks are in one cluster exactly if they have the same one. */
  lemma ChecksTogether(names: seq<string>, t: string, u: string)
    requires t in names && u in names
    ensures Together(ClusterChecks(names), t, u) <==> exists g :: CheckCluster(t, g) && CheckCluster(u, g)
  {
    GroupsTogether(names, t, u);
    CheckGroupExactly(t, CheckGroup(t));
    CheckGroupExactly(u, CheckGroup(t));
    if g :| CheckCluster(t, g) && CheckCluster(u, g) {
      CheckGroupExactly(t, g);
      CheckGroupExactly(u, g);
    }
  }

  // ----- coverage -----

  ghost predicate IsUnit(t: string)
  {
    exists x :: t == "unit-" + x
  }

  lemma SinglesNamed(names: seq<string>, n: string, t: string)
    ensures InCluster(Singles(names), n, t) <==> t in names && n == t
  {
    var cs := Singles(names);
    if t in names && n == t {
      var i :| 0 <= i < |names| && names[i] == t;
      assert cs[i] in cs && cs[i].name == n && t in cs[i].targets;
    }
  }

  lemma SinglesTogether(names: seq<string>, t: string, u: string)
    requires t in names
    ensures Together(Singles(names), t, u) <==> t == u
  {
    SinglesNamed(names, t, t);
  }

  lemma UnitNames(names: seq<string>, t: string)
    ensures t in Sort(Filter(names, x => StartsWith(x, "unit-")), StrLe) <==> t in names && IsUnit(t)
    ensures t in Sort(Filter(names, x => !StartsWith(x, "unit-")), StrLe) <==> t in names && !IsUnit(t)
  {
    KeptNames(names, x => StartsWith(x, "unit-"), t);
    KeptNames(names, x => !StartsWith(x, "unit-"), t);
    Prefixed(t, "unit-");
  }

  /** Unit coverage is one cluster, anything else is alone under its own name. */
  lemma CoverageNamed(names: seq<string>, n: string, t: string)
    ensures InCluster(ClusterCoverage(names), n, t) <==> t in names && if IsUnit(t) then n == "unit" else n == t
  {
    var unit := Sort(Filter(names, x => StartsWith(x, "unit-")), StrLe);
    var rest := Sort(Filter(names, x => !StartsWith(x, "unit-")), StrLe);
    var cs := ClusterCoverage(names);
    UnitNames(names, t);
    SinglesNamed(rest, n, t);
    assert unit != [] ==> cs == [Cluster("unit", unit)] + Singles(rest);
    if t in unit && n == "unit" {
      assert cs[0].name == n && t in cs[0].targets;
    }
    if c :| c in Singles(rest) && c.name == n && t in c.targets {
      assert c in cs;
    }
  }

  lemma CoverageTogether(names: seq<string>, t: string, u: string)
    requires t in names && u in names
    ensures Together(ClusterCoverage(names), t, u) <==> t == u || (IsUnit(t) && IsUnit(u))
  {
    var unit := Sort(Filter(names, x => StartsWith(x, "unit-")), StrLe);
    var rest := Sort(Filter(names, x => !StartsWith(x, "unit-")), StrLe);
    UnitNames(names, t);
    UnitNames(names, u);
    FrontTogether(unit, rest, ClusterCoverage(names), t, u);
  }

  lemma FrontTogether(unit: seq<string>, rest: seq<string>, cs: seq<Cluster>, t: string, u: string)
    requires cs == (if unit == [] then [] else [Cluster("unit", unit)]) + Singles(rest)
    requires (t in unit || t in rest) && (t in unit ==> t !in rest) && (u in unit || u in rest) && (u in unit ==> u !in rest)
    ensures Together(cs, t, u) <==> t == u || (t in unit && u in unit)
  {
    if t in rest { SinglesTogether(rest, t, u); }
    if c :| c in Singles(rest) && t in c.targets && u in c.targets {
      assert c in cs;
    }
    if t in unit {
      assert cs[0] in cs && t in cs[0].targets;
    }
  }

  // ----- formal -----

  ghost predicate IsKaniName(t: string)
  {
    exists x :: t == "kani-" + x
  }

  /** More than half of the 8192 MB that two servers share. */
  predicate NeedsAlone(heap: map<string, Option<int>>, t: string)
  {
    t in heap && heap[t].Some? && heap[t].value > 4096
  }

  ghost predicate IsLight(heap: map<string, Option<int>>, t: string)
  {
    !IsKaniName(t) && !NeedsAlone(heap, t)
  }

  lemma FormalNames(names: seq<string>, heap: map<string, Option<int>>, t: string)
    ensures t in KaniNames(names) <==> t in names && IsKaniName(t)
    ensures t in HeavyNames(names, heap) <==> t in names && !IsKaniName(t) && NeedsAlone(heap, t)
    ensures t in LightNames(names, heap) <==> t in names && IsLight(heap, t)
  {
    Prefixed(t, "kani-");
    KeptNames(names, x => IsKani(x), t);
    KeptNames(names, x => !IsKani(x), t);
    KeptNames(Filter(names, x => !IsKani(x)), x => IsHeavy(heap, x), t);
    KeptNames(Filter(names, x => !IsKani(x)), x => !IsHeavy(heap, x), t);
  }

  /** `count` shards of at most `size` names are just enough for `n` names. */
  predicate JustEnough(n: nat, size: nat, count: nat)
  {
    if n == 0 then count == 0 else count > 0 && n <= count * size < n + size
  }

  lemma CountExactly(n: nat, size: nat, count: nat)
    requires n > 0 && size > 0
    ensures JustEnough(n, size, count) <==> count == CeilDiv(n, size)
  {
    CeilDivBounds(n, size);
    var c := CeilDiv(n, size);
    if count < c { MulGap(count, c, size); }
    if c < count { MulGap(c, count, size); }
  }

  /** The light names in order. */
  ghost predicate LightList(names: seq<string>, heap: map<string, Option<int>>, light: seq<string>)
  {
    Sorted(light, StrLe) && Distinct(light) && forall t :: t in light <==> t in names && IsLight(heap, t)
  }

  lemma LightIs(names: seq<string>, heap: map<string, Option<int>>, light: seq<string>)
    requires Distinct(names) && LightList(names, heap, light)
    ensures LightNames(names, heap) == light
  {
    var mine := LightNames(names, heap);
    StrTotalOrder();
    SortSorts(Filter(Filter(names, x => !IsKani(x)), x => !IsHeavy(heap, x)), StrLe);
    LightDistinct(names, heap);
    forall t
      ensures t in mine <==> t in light
    {
      FormalNames(names, heap, t);
    }
    DistinctSameMultiset(mine, light);
    SortedUnique(mine, light, StrLe);
  }

  lemma LightDistinct(names: seq<string>, heap: map<string, Option<int>>)
    requires Distinct(names)
    ensures Distinct(LightNames(names, heap))
  {
    var f := Filter(Filter(names, x => !IsKani(x)), x => !IsHeavy(heap, x));
    forall x
      ensures multiset(f)[x] <= 1
    {
      FilterCount(Filter(names, y => !IsKani(y)), y => !IsHeavy(heap, y), x);
      FilterCount(names, y => !IsKani(y), x);
      MultiplicityOne(names, x);
    }
    var l := LightNames(names, heap);
    forall i, j | 0 <= i < j < |l|
      ensures l[i] != l[j]
    {
      if l[i] == l[j] { MultiplicityTwo(l, i, j); }
    }
  }

  lemma StrideHolds(rest: seq<string>, count: nat, i: nat, p: nat)
    requires Distinct(rest) && i < count && p < |rest|
    ensures rest[p] in Stride(rest, i, count) <==> p % count == i
  {
    if p % count == i {
      DealtWhere(rest, count, p);
    }
    if rest[p] in Stride(rest, i, count) {
      FromStride(rest, count, i, p);
    }
  }

  lemma FromStride(rest: seq<string>, count: nat, i: nat, p: nat)
    requires Distinct(rest) && i < count && p < |rest| && rest[p] in Stride(rest, i, count)
    ensures p % count == i
  {
    var s := Stride(rest, i, count);
    var j :| 0 <= j < |s| && s[j] == rest[p];
    StrideInRange(|rest|, i, count, j);
    SamePlace(rest, p, i + j * count);
    StrideResidue(i, j, count);
  }

  lemma SamePlace(rest: seq<string>, p: nat, q: nat)
    requires Distinct(rest) && p < |rest| && q < |rest| && rest[p] == rest[q]
    ensures p == q
  {
  }

  lemma StrideResidue(i: nat, j: nat, count: nat)
    requires i < count
    ensures (i + j * count) % count == i
  {
    DivMod(i + j * count, count);
    var q := (i + j * count) / count;
    if q < j { MulGap(q, j, count); }
    if j < q { MulGap(j, q, count); }
  }

  /** A dealt name is in the shard of its position. */
  lemma DealNamed(light: seq<string>, size: nat, count: nat, n: string, p: nat)
    requires Distinct(light) && size > 0 && p < |light| && JustEnough(|light|, size, count)
    ensures InCluster(DealAll(light, size), n, light[p]) <==> exists i: nat :: i < count && n == ShardLabel(i, count) && p % count == i
  {
    CountExactly(|light|, size, count);
    var cs := DealAll(light, size);
    if InCluster(cs, n, light[p]) {
      var c :| c in cs && c.name == n && light[p] in c.targets;
      var i :| 0 <= i < |cs| && cs[i] == c;
      StrideHolds(light, count, i, p);
      assert i < count && n == ShardLabel(i, count) && p % count == i;
    }
    if i: nat :| i < count && n == ShardLabel(i, count) && p % count == i {
      StrideHolds(light, count, i, p);
      assert cs[i] in cs && cs[i].name == n && light[p] in cs[i].targets;
    }
  }

  lemma DealTogether(light: seq<string>, size: nat, count: nat, p: nat, q: nat)
    requires Distinct(light) && size > 0 && p < |light| && q < |light| && JustEnough(|light|, size, count)
    ensures Together(DealAll(light, size), light[p], light[q]) <==> p % count == q % count
  {
    CountExactly(|light|, size, count);
    var cs := DealAll(light, size);
    if Together(cs, light[p], light[q]) {
      var c :| c in cs && light[p] in c.targets && light[q] in c.targets;
      var i :| 0 <= i < |cs| && cs[i] == c;
      StrideHolds(light, count, i, p);
      StrideHolds(light, count, i, q);
    }
    if p % count == q % count {
      var i := p % count;
      StrideHolds(light, count, i, p);
      StrideHolds(light, count, i, q);
      assert cs[i] in cs;
    }
  }

  lemma InConcat(a: seq<Cluster>, b: seq<Cluster>, n: string, t: string, u: string)
    ensures InCluster(a + b, n, t) <==> InCluster(a, n, t) || InCluster(b, n, t)
    ensures Together(a + b, t, u) <==> Together(a, t, u) || Together(b, t, u)
  {
    assert forall c :: c in a + b <==> c in a || c in b;
  }

  /** `t` is dealt to the job called `n`. */
  ghost predicate DealtTo(light: seq<string>, count: nat, t: string, n: string)
  {
    count > 0 && exists p: nat :: p < |light| && light[p] == t && n == ShardLabel(p % count, count)
  }

  /** Both are dealt to one job. */
  ghost predicate DealtAlike(light: seq<string>, count: nat, t: string, u: string)
  {
    count > 0 && exists p: nat, q: nat :: p < |light| && q < |light| && light[p] == t && light[q] == u && p % count == q % count
  }

  lemma DealtListed(light: seq<string>, size: nat, n: string, t: string, u: string)
    requires size > 0
    ensures InCluster(DealAll(light, size), n, t) ==> t in light
    ensures Together(DealAll(light, size), t, u) ==> t in light && u in light
  {
    var cs := DealAll(light, size);
    if c :| c in cs && c.name == n && t in c.targets { DealtAreLight(light, size, c, t); }
    if c :| c in cs && t in c.targets && u in c.targets {
      DealtAreLight(light, size, c, t);
      DealtAreLight(light, size, c, u);
    }
  }

  /** A kani or heavy check is alone under its own name; light name p of the sorted list is in shard p mod count. */
  lemma FormalNamed(names: seq<string>, size: nat, heap: map<string, Option<int>>, light: seq<string>, count: nat, n: string, t: string)
    requires size > 0 && Distinct(names) && LightList(names, heap, light) && JustEnough(|light|, size, count)
    ensures InCluster(ClusterFormal(names, size, heap), n, t)
       <==> t in names && if !IsLight(heap, t) then n == t
                          else DealtTo(light, count, t, n)
  {
    var kani, heavy := KaniNames(names), HeavyNames(names, heap);
    LightIs(names, heap, light);
    FormalNames(names, heap, t);
    SinglesNamed(kani, n, t);
    SinglesNamed(heavy, n, t);
    InConcat(Singles(kani), Singles(heavy), n, t, t);
    InConcat(Singles(kani) + Singles(heavy), DealAll(light, size), n, t, t);
    DealtListed(light, size, n, t, t);
    if t in light {
      LightNamed(light, size, count, n, t);
    }
  }

  lemma LightNamed(light: seq<string>, size: nat, count: nat, n: string, t: string)
    requires Distinct(light) && size > 0 && t in light && JustEnough(|light|, size, count)
    ensures InCluster(DealAll(light, size), n, t) <==> DealtTo(light, count, t, n)
  {
    var p: nat :| p < |light| && light[p] == t;
    DealNamed(light, size, count, n, p);
    assert forall q: nat :: q < |light| && light[q] == t ==> q == p;
  }

  lemma FormalTogether(names: seq<string>, size: nat, heap: map<string, Option<int>>, light: seq<string>, count: nat, t: string, u: string)
    requires size > 0 && Distinct(names) && LightList(names, heap, light) && JustEnough(|light|, size, count)
    requires t in names && u in names
    ensures Together(ClusterFormal(names, size, heap), t, u)
       <==> t == u || DealtAlike(light, count, t, u)
  {
    var kani, heavy := KaniNames(names), HeavyNames(names, heap);
    LightIs(names, heap, light);
    FormalNames(names, heap, t);
    FormalNames(names, heap, u);
    AloneTogether(kani, t, u);
    AloneTogether(heavy, t, u);
    InConcat(Singles(kani), Singles(heavy), t, t, u);
    InConcat(Singles(kani) + Singles(heavy), DealAll(light, size), t, t, u);
    DealtListed(light, size, t, t, u);
    if t in light && u in light {
      LightTogether(light, size, count, t, u);
    }
  }

  lemma AloneTogether(names: seq<string>, t: string, u: string)
    ensures Together(Singles(names), t, u) <==> t in names && t == u
  {
    if t in names { SinglesTogether(names, t, u); }
  }

  lemma LightTogether(light: seq<string>, size: nat, count: nat, t: string, u: string)
    requires Distinct(light) && size > 0 && t in light && u in light && JustEnough(|light|, size, count)
    ensures Together(DealAll(light, size), t, u)
       <==> DealtAlike(light, count, t, u)
    ensures t == u ==> Together(DealAll(light, size), t, u)
  {
    var p: nat :| p < |light| && light[p] == t;
    var q: nat :| q < |light| && light[q] == u;
    DealTogether(light, size, count, p, q);
    assert forall x: nat :: x < |light| && light[x] == t ==> x == p;
    assert forall x: nat :: x < |light| && light[x] == u ==> x == q;
  }

  // ----- sizes and order of formal shards -----

  /** No shard of light checks is above the limit, and any two are within one of each other. */
  lemma FormalBalanced(names: seq<string>, size: nat, heap: map<string, Option<int>>, c: Cluster, d: Cluster, t: string, u: string)
    requires size > 0 && c in ClusterFormal(names, size, heap) && d in ClusterFormal(names, size, heap)
    requires t in c.targets && u in d.targets && IsLight(heap, t) && IsLight(heap, u)
    ensures |c.targets| <= size && |c.targets| <= |d.targets| + 1
  {
    var light := LightNames(names, heap);
    InDeal(names, size, heap, c, t);
    InDeal(names, size, heap, d, u);
    var i :| 0 <= i < |DealAll(light, size)| && DealAll(light, size)[i] == c;
    var j :| 0 <= j < |DealAll(light, size)| && DealAll(light, size)[j] == d;
    DealBalanced(light, size, i, j);
  }

  lemma InDeal(names: seq<string>, size: nat, heap: map<string, Option<int>>, c: Cluster, t: string)
    requires size > 0 && c in ClusterFormal(names, size, heap) && t in c.targets && IsLight(heap, t)
    ensures LightNames(names, heap) != [] && c in DealAll(LightNames(names, heap), size)
  {
    FormalNames(names, heap, t);
    if c in Singles(KaniNames(names)) { SinglesAlone(KaniNames(names), c, t); }
    if c in Singles(HeavyNames(names, heap)) { SinglesAlone(HeavyNames(names, heap), c, t); }
  }

  // ----- labels -----

  ghost function Value(s: string): nat
    requires forall i :: 0 <= i < |s| ==> '0' <= s[i] <= '9'
  {
    if s == "" then 0 else 10 * Value(s[..|s| - 1]) + (s[|s| - 1] as int - '0' as int)
  }

  ghost predicate IsDecimal(s: string, v: nat)
  {
    (forall i :: 0 <= i < |s| ==> '0' <= s[i] <= '9') && Value(s) == v
  }

  lemma {:induction false} DigitsExactly(n: nat)
    ensures IsDecimal(Digits(n), n) && |Digits(n)| > 0 && (n > 0 ==> Digits(n)[0] != '0')
  {
    var last := [('0' as int + n % 10) as char];
    if n < 10 {
      assert last[..0] == "" && Value(last) == 10 * Value("") + n;
    } else {
      DigitsExactly(n / 10);
      var d := Digits(n);
      assert d[..|d| - 1] == Digits(n / 10);
      assert n == 10 * (n / 10) + n % 10;
    }
  }

  lemma {:induction false} LeadingZero(s: string, v: nat)
    requires IsDecimal(s, v)
    ensures IsDecimal("0" + s, v)
    decreases |s|
  {
    var z := "0" + s;
    if s == "" {
      assert z[..0] == "" && Value(z) == 10 * Value("") + 0;
    } else {
      LeadingZero(s[..|s| - 1], Value(s[..|s| - 1]));
      assert z[..|z| - 1] == "0" + s[..|s| - 1];
    }
  }

  lemma {:induction false} PadExactly(s: string, width: nat, v: nat)
    requires IsDecimal(s, v)
    ensures IsDecimal(ZeroPad(s, width), v) && |ZeroPad(s, width)| == if |s| < width then width else |s|
    decreases width - |s|
  {
    if |s| < width {
      LeadingZero(s, v);
      PadExactly("0" + s, width, v);
    }
  }

  lemma {:induction false} DigitsGrow(n: nat, m: nat)
    requires n <= m
    ensures |Digits(n)| <= |Digits(m)|
    decreases m
  {
    if n >= 10 {
      DigitsGrow(n / 10, m / 10);
    }
  }

  /** Shard i of `count` is labelled with i+1 and `count` in decimal, the first padded to the width of the second. */
  lemma LabelExactly(i: nat, count: nat) returns (a: string, b: string)
    requires i < count
    ensures ShardLabel(i, count) == "quint-" + a + "of" + b
    ensures IsDecimal(a, i + 1) && IsDecimal(b, count) && |a| == |b| > 0 && b[0] != '0'
  {
    DigitsExactly(i + 1);
    DigitsExactly(count);
    DigitsGrow(i + 1, count);
    b := Digits(count);
    a := ZeroPad(Digits(i + 1), |b|);
    PadExactly(Digits(i + 1), |b|, i + 1);
  }
}

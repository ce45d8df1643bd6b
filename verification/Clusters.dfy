/** How each matrix kind groups its uncached entries into clusters. */
module Clusters {

  import opened Options
  import opened Ordering
  import opened Trunk

  /** A pending entry: what the job realises, its uncached closure, its exported server heap. */
  datatype Meta = Meta(drv: Drv, needed: set<Drv>, heap: Option<int>)

  datatype Cluster = Cluster(name: string, targets: seq<string>)

  const FORMAL_SHARD_BUDGET_MB := 8192
  const DEFAULT_FORMAL_SHARD_SIZE: nat := 12

  // ----- generic -----

  function AllTargets(cs: seq<Cluster>): seq<string>
  {
    if cs == [] then [] else cs[0].targets + AllTargets(cs[1..])
  }

  lemma {:induction false} AllTargetsConcat(a: seq<Cluster>, b: seq<Cluster>)
    ensures AllTargets(a + b) == AllTargets(a) + AllTargets(b)
  {
    if a == [] {
      assert a + b == b;
    } else {
      assert (a + b)[1..] == a[1..] + b;
      AllTargetsConcat(a[1..], b);
    }
  }

  /** Every name is in exactly one cluster, as often as it was given, and no cluster is empty. */
  ghost predicate Conserves(cs: seq<Cluster>, names: seq<string>)
  {
    && multiset(AllTargets(cs)) == multiset(names)
    && forall i :: 0 <= i < |cs| ==> cs[i].targets != []
  }

  lemma ConservesConcat(a: seq<Cluster>, x: seq<string>, b: seq<Cluster>, y: seq<string>)
    requires Conserves(a, x) && Conserves(b, y)
    ensures Conserves(a + b, x + y)
  {
    AllTargetsConcat(a, b);
  }

  lemma ConservesSorted(cs: seq<Cluster>, x: seq<string>, y: seq<string>)
    requires Conserves(cs, x) && multiset(x) == multiset(y)
    ensures Conserves(cs, y)
  {
  }

  function Filter(names: seq<string>, keep: string -> bool): seq<string>
  {
    if names == [] then []
    else (if keep(names[0]) then [names[0]] else []) + Filter(names[1..], keep)
  }

  lemma {:induction false} FilterCount(names: seq<string>, keep: string -> bool, x: string)
    ensures multiset(Filter(names, keep))[x] == if keep(x) then multiset(names)[x] else 0
  {
    if names != [] {
      FilterCount(names[1..], keep, x);
      assert names == [names[0]] + names[1..];
    }
  }

  /** Filtering by a predicate and by its negation splits a list. */
  lemma FilterSplits(names: seq<string>, keep: string -> bool, drop: string -> bool)
    requires forall x :: drop(x) == !keep(x)
    ensures multiset(Filter(names, keep) + Filter(names, drop)) == multiset(names)
  {
    forall x
      ensures multiset(Filter(names, keep) + Filter(names, drop))[x] == multiset(names)[x]
    {
      FilterCount(names, keep, x);
      FilterCount(names, drop, x);
    }
  }

  predicate StartsWith(s: string, prefix: string)
  {
    |prefix| <= |s| && s[..|prefix|] == prefix
  }

  // ----- fuzz and vm-test: one cluster per name -----

  function Singles(names: seq<string>): seq<Cluster>
  {
    seq(|names|, i requires 0 <= i < |names| => Cluster(names[i], [names[i]]))
  }

  function Singletons(names: seq<string>): seq<Cluster>
  {
    Singles(Sort(names, StrLe))
  }

  lemma {:induction false} SinglesTargets(names: seq<string>)
    ensures AllTargets(Singles(names)) == names
  {
    if names != [] {
      assert Singles(names)[1..] == Singles(names[1..]);
      SinglesTargets(names[1..]);
      assert names == [names[0]] + names[1..];
    }
  }

  lemma SinglesConserve(names: seq<string>)
    ensures Conserves(Singles(names), names)
  {
    SinglesTargets(names);
  }

  lemma SingletonsConserve(names: seq<string>)
    ensures Conserves(Singletons(names), names)
  {
    SinglesConserve(Sort(names, StrLe));
  }

  // ----- checks: one cluster per crate, the rest in `misc` -----

  /** Strips the first prefix that leaves a non-empty member name. */
  function MemberOf(name: string, prefixes: seq<string>): string
  {
    if prefixes == [] then "misc"
    else if StartsWith(name, prefixes[0]) && |prefixes[0]| < |name| then name[|prefixes[0]|..]
    else MemberOf(name, prefixes[1..])
  }

  function CheckGroup(name: string): string
  {
    MemberOf(name, ["clippy-test-", "clippy-", "doc-", "nextest-"])
  }

  function InGroup(names: seq<string>, group: string): seq<string>
  {
    Filter(names, x => CheckGroup(x) == group)
  }

  function CheckClustersFor(names: seq<string>, groups: seq<string>): seq<Cluster>
  {
    seq(|groups|, i requires 0 <= i < |groups| => Cluster(groups[i], Sort(InGroup(names, groups[i]), StrLe)))
  }

  function GroupsOf(names: seq<string>): set<string>
  {
    set i | 0 <= i < |names| :: CheckGroup(names[i])
  }

  function ClusterChecks(names: seq<string>): seq<Cluster>
  {
    CheckClustersFor(names, SortedSet(GroupsOf(names)))
  }

  function AppendTo(groups: map<string, seq<string>>, key: string, name: string): map<string, seq<string>>
  {
    groups[key := (if key in groups then groups[key] else []) + [name]]
  }

  ghost predicate Grouped(groups: map<string, seq<string>>, names: seq<string>)
  {
    groups.Keys == GroupsOf(names) && forall g :: g in groups ==> groups[g] == InGroup(names, g)
  }

  function FromGroups(groups: map<string, seq<string>>, keys: seq<string>): seq<Cluster>
    requires forall k :: k in keys ==> k in groups
  {
    seq(|keys|, i requires 0 <= i < |keys| => Cluster(keys[i], Sort(groups[keys[i]], StrLe)))
  }

  /** The grouping dictionary: names appended one by one under their group. */
  method GroupChecks(names: seq<string>) returns (clusters: seq<Cluster>)
    ensures clusters == ClusterChecks(names)
  {
    var groups: map<string, seq<string>> := map[];
    for n := 0 to |names|
      invariant Grouped(groups, names[..n])
    {
      assert names[..n + 1] == names[..n] + [names[n]];
      GroupedSnoc(groups, names[..n], names[n]);
      groups := AppendTo(groups, CheckGroup(names[n]), names[n]);
    }
    assert names[..|names|] == names;
    clusters := FromGroups(groups, SortedSet(groups.Keys));
    GroupedClusters(groups, names, SortedSet(groups.Keys));
  }

  lemma GroupedClusters(groups: map<string, seq<string>>, names: seq<string>, keys: seq<string>)
    requires Grouped(groups, names) && forall k :: k in keys ==> k in groups
    ensures FromGroups(groups, keys) == CheckClustersFor(names, keys)
  {
    forall i | 0 <= i < |keys|
      ensures groups[keys[i]] == InGroup(names, keys[i])
    {
      assert keys[i] in keys;
    }
  }

  lemma GroupedSnoc(groups: map<string, seq<string>>, names: seq<string>, name: string)
    requires Grouped(groups, names)
    ensures Grouped(AppendTo(groups, CheckGroup(name), name), names + [name])
  {
    var groups' := AppendTo(groups, CheckGroup(name), name);
    GroupsSnoc(names, name);
    forall g | g in groups'
      ensures groups'[g] == InGroup(names + [name], g)
    {
      FilterSnoc(names, name, x => CheckGroup(x) == g);
      if g !in groups { NoneInGroup(names, g); }
    }
  }

  lemma GroupsSnoc(names: seq<string>, name: string)
    ensures GroupsOf(names + [name]) == GroupsOf(names) + {CheckGroup(name)}
  {
    var all := names + [name];
    forall g | g in GroupsOf(names)
      ensures g in GroupsOf(all)
    {
      var i :| 0 <= i < |names| && CheckGroup(names[i]) == g;
      assert all[i] == names[i];
    }
    assert all[|names|] == name;
  }

  lemma {:induction false} FilterSnoc(names: seq<string>, name: string, keep: string -> bool)
    ensures Filter(names + [name], keep) == Filter(names, keep) + if keep(name) then [name] else []
  {
    if names != [] {
      assert (names + [name])[1..] == names[1..] + [name];
      FilterSnoc(names[1..], name, keep);
    }
  }

  lemma NoneInGroup(names: seq<string>, g: string)
    requires g !in GroupsOf(names)
    ensures InGroup(names, g) == []
  {
    NoneKept(names, x => CheckGroup(x) == g);
  }

  lemma {:induction false} NoneKept(names: seq<string>, keep: string -> bool)
    requires forall i :: 0 <= i < |names| ==> !keep(names[i])
    ensures Filter(names, keep) == []
  {
    if names != [] {
      NoneKept(names[1..], keep);
    }
  }

  lemma {:induction false} CheckClustersCount(names: seq<string>, groups: seq<string>, x: string)
    requires Distinct(groups)
    ensures multiset(AllTargets(CheckClustersFor(names, groups)))[x]
         == if CheckGroup(x) in groups then multiset(names)[x] else 0
  {
    if groups != [] {
      var cs := CheckClustersFor(names, groups);
      assert cs[1..] == CheckClustersFor(names, groups[1..]);
      CheckClustersCount(names, groups[1..], x);
      FilterCount(names, y => CheckGroup(y) == groups[0], x);
      assert groups == [groups[0]] + groups[1..];
      assert cs[0].targets == Sort(InGroup(names, groups[0]), StrLe);
      assert groups[0] !in groups[1..];
    }
  }

  /** Nothing is dropped or duplicated by grouping the checks. */
  lemma ChecksConserve(names: seq<string>)
    ensures Conserves(ClusterChecks(names), names)
  {
    var groups := SortedSet(GroupsOf(names));
    forall x
      ensures multiset(AllTargets(ClusterChecks(names)))[x] == multiset(names)[x]
    {
      CheckClustersCount(names, groups, x);
      if x in names {
        var i :| 0 <= i < |names| && names[i] == x;
        assert CheckGroup(names[i]) in GroupsOf(names);
      }
    }
    forall i | 0 <= i < |groups|
      ensures ClusterChecks(names)[i].targets != []
    {
      assert groups[i] in GroupsOf(names);
      var j :| 0 <= j < |names| && CheckGroup(names[j]) == groups[i];
      FilterCount(names, y => CheckGroup(y) == groups[i], names[j]);
      assert names[j] in multiset(names);
      assert multiset(ClusterChecks(names)[i].targets)[names[j]] > 0;
    }
  }

  // ----- coverage: one `unit` cluster, the rest alone -----

  function ClusterCoverage(names: seq<string>): seq<Cluster>
  {
    var unit := Sort(Filter(names, x => StartsWith(x, "unit-")), StrLe);
    var rest := Sort(Filter(names, x => !StartsWith(x, "unit-")), StrLe);
    (if unit == [] then [] else [Cluster("unit", unit)]) + Singles(rest)
  }

  lemma CoverageConserves(names: seq<string>)
    ensures Conserves(ClusterCoverage(names), names)
  {
    var unit := Sort(Filter(names, x => StartsWith(x, "unit-")), StrLe);
    var rest := Sort(Filter(names, x => !StartsWith(x, "unit-")), StrLe);
    FilterSplits(names, x => StartsWith(x, "unit-"), x => !StartsWith(x, "unit-"));
    SinglesConserve(rest);
    OneCluster("unit", unit);
    ConservesConcat(if unit == [] then [] else [Cluster("unit", unit)], unit, Singles(rest), rest);
    ConservesSorted(ClusterCoverage(names), unit + rest, names);
  }

  lemma OneCluster(name: string, targets: seq<string>)
    ensures Conserves(if targets == [] then [] else [Cluster(name, targets)], targets)
  {
    if targets != [] {
      var c := Cluster(name, targets);
      assert [c][1..] == [] && AllTargets([c]) == targets + AllTargets([]);
      assert AllTargets([c]) == targets;
    }
  }
}

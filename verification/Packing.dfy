/** `pack_shards`: whole components, largest first, into the currently lightest warm shard. */
module Packing {

  import opened Fields
  import opened Ordering
  import opened Trunk
  import opened Makespan
  import opened SetSizes

  const MAX_WARM_SHARDS: nat := 4

  datatype Bin = Bin(drvs: set<Drv>, kinds: set<Kind>)

  /** A warm matrix entry; `drvs` is the space-joined list. */
  datatype Shard = Shard(name: string, drvs: seq<Drv>)

  /** Python's `min` over the bins by size: the first of the smallest. */
  function Lightest(bins: seq<Bin>): (k: nat)
    requires |bins| > 0
    ensures k < |bins|
    ensures forall j :: 0 <= j < |bins| ==> |bins[k].drvs| <= |bins[j].drvs|
    ensures forall j :: 0 <= j < k ==> |bins[k].drvs| < |bins[j].drvs|
  {
    if |bins| == 1 then 0
    else
      var k := Lightest(bins[..|bins| - 1]);
      if |bins[|bins| - 1].drvs| < |bins[k].drvs| then |bins| - 1 else k
  }

  function ShardName(kinds: set<Kind>): string
  {
    var joined := JoinOn(SortedSet(kinds), '+');
    if joined == "" then "trunk" else joined
  }

  function ToShard(b: Bin): Shard
  {
    Shard(ShardName(b.kinds), SortedSet(b.drvs))
  }

  function BinCount(comps: seq<Component>, maxShards: nat): nat
  {
    if |comps| < maxShards then |comps| else maxShards
  }

  // ----- the bins after the first n components -----

  function EmptyBins(k: nat): seq<Bin>
  {
    seq(k, i => Bin({}, {}))
  }

  function Place(bins: seq<Bin>, k: nat, c: Component): seq<Bin>
    requires k < |bins|
  {
    bins[k := Bin(bins[k].drvs + c.drvs, bins[k].kinds + c.kinds)]
  }

  function Packed(comps: seq<Component>, n: nat, k: nat): (bins: seq<Bin>)
    requires n <= |comps| && (n == 0 || k > 0)
    ensures |bins| == k
  {
    if n == 0 then EmptyBins(k)
    else
      var before := Packed(comps, n - 1, k);
      Place(before, Lightest(before), comps[n - 1])
  }

  /** The bins that are not empty, in order, out of the first `n`. */
  function Kept(bins: seq<Bin>, n: nat): seq<Bin>
    requires n <= |bins|
  {
    if n == 0 then []
    else Kept(bins, n - 1) + if bins[n - 1].drvs == {} then [] else [bins[n - 1]]
  }

  function ToShards(bins: seq<Bin>): seq<Shard>
  {
    seq(|bins|, i requires 0 <= i < |bins| => ToShard(bins[i]))
  }

  function Shards(comps: seq<Component>, maxShards: nat): seq<Shard>
    requires comps == [] || maxShards >= 1
  {
    var bins := Packed(comps, |comps|, BinCount(comps, maxShards));
    ToShards(Kept(bins, |bins|))
  }

  method PackShards(comps: seq<Component>, maxShards: nat) returns (shards: seq<Shard>)
    requires comps == [] || maxShards >= 1
    ensures shards == Shards(comps, maxShards)
  {
    if comps == [] {
      return [];
    }
    var bins := FillBins(comps, BinCount(comps, maxShards));
    var kept := [];
    for i := 0 to |bins|
      invariant kept == Kept(bins, i)
    {
      if bins[i].drvs != {} {
        kept := kept + [bins[i]];
      }
    }
    shards := ToShards(kept);
  }

  method FillBins(comps: seq<Component>, k: nat) returns (bins: seq<Bin>)
    requires k > 0
    ensures bins == Packed(comps, |comps|, k)
  {
    bins := EmptyBins(k);
    for n := 0 to |comps|
      invariant bins == Packed(comps, n, k)
    {
      bins := Place(bins, Lightest(bins), comps[n]);
    }
  }

  // ----- which component went where -----

  ghost function Choices(comps: seq<Component>, n: nat, k: nat): (a: seq<nat>)
    requires n <= |comps| && (n == 0 || k > 0)
    ensures |a| == n && forall i :: 0 <= i < n ==> a[i] < k
  {
    if n == 0 then []
    else Choices(comps, n - 1, k) + [Lightest(Packed(comps, n - 1, k))]
  }

  ghost function Sizes(comps: seq<Component>): (sizes: seq<nat>)
    ensures |sizes| == |comps|
  {
    seq(|comps|, i requires 0 <= i < |comps| => |comps[i].drvs|)
  }

  /** The drvs an assignment of components puts on shard `b`. */
  ghost function ShardDrvs(comps: seq<Component>, a: seq<nat>, b: nat): set<Drv>
    requires |a| <= |comps|
  {
    set i, d | 0 <= i < |a| && a[i] == b && d in comps[i].drvs :: d
  }

  ghost function ShardKinds(comps: seq<Component>, a: seq<nat>, b: nat): set<Kind>
    requires |a| <= |comps|
  {
    set i, k | 0 <= i < |a| && a[i] == b && k in comps[i].kinds :: k
  }

  /** The bins hold exactly what the choices put into them: no component is split. */
  lemma {:induction false} PackedHoldsChoices(comps: seq<Component>, n: nat, k: nat, b: nat)
    requires n <= |comps| && (n == 0 || k > 0) && b < k
    ensures Packed(comps, n, k)[b].drvs == ShardDrvs(comps, Choices(comps, n, k), b)
    ensures Packed(comps, n, k)[b].kinds == ShardKinds(comps, Choices(comps, n, k), b)
  {
    if n > 0 {
      PackedHoldsChoices(comps, n - 1, k, b);
      PlaceExtendsShard(comps, Choices(comps, n - 1, k), b, Packed(comps, n - 1, k), Lightest(Packed(comps, n - 1, k)));
    } else {
      NothingPlaced(comps, b);
    }
  }

  lemma NothingPlaced(comps: seq<Component>, b: nat)
    ensures ShardDrvs(comps, [], b) == {} && ShardKinds(comps, [], b) == {}
  {
  }

  lemma PlaceExtendsShard(comps: seq<Component>, a: seq<nat>, b: nat, bins: seq<Bin>, l: nat)
    requires |a| < |comps| && b < |bins| && l < |bins|
    requires bins[b].drvs == ShardDrvs(comps, a, b) && bins[b].kinds == ShardKinds(comps, a, b)
    ensures Place(bins, l, comps[|a|])[b].drvs == ShardDrvs(comps, a + [l], b)
    ensures Place(bins, l, comps[|a|])[b].kinds == ShardKinds(comps, a + [l], b)
  {
    ShardSnoc(comps, a, b, l);
  }

  lemma ShardSnoc(comps: seq<Component>, a: seq<nat>, b: nat, last: nat)
    requires |a| < |comps|
    ensures ShardDrvs(comps, a + [last], b) == ShardDrvs(comps, a, b) + if last == b then comps[|a|].drvs else {}
    ensures ShardKinds(comps, a + [last], b) == ShardKinds(comps, a, b) + if last == b then comps[|a|].kinds else {}
  {
    var a' := a + [last];
    forall i | 0 <= i < |a'|
      ensures a'[i] == if i < |a| then a[i] else last
    {
    }
    forall d | d in ShardDrvs(comps, a, b)
      ensures d in ShardDrvs(comps, a', b)
    {
      var i :| 0 <= i < |a| && a[i] == b && d in comps[i].drvs;
      assert a'[i] == b;
    }
    if last == b { assert a'[|a|] == b; }
    forall x | x in ShardKinds(comps, a, b)
      ensures x in ShardKinds(comps, a', b)
    {
      var i :| 0 <= i < |a| && a[i] == b && x in comps[i].kinds;
      assert a'[i] == b;
    }
  }

  // ----- sizes add up because components are disjoint -----

  lemma {:induction false} ShardSize(comps: seq<Component>, a: seq<nat>, b: nat)
    requires |a| <= |comps| && PairwiseDisjoint(comps)
    ensures |ShardDrvs(comps, a, b)| == Load(Sizes(comps)[..|a|], a, b)
    decreases |a|
  {
    if |a| > 0 {
      var n := |a| - 1;
      ShardSize(comps, a[..n], b);
      assert a == a[..n] + [a[n]];
      ShardSizeSnoc(comps, a[..n], b, a[n]);
      LoadSnoc(Sizes(comps)[..|a|], a, b, n);
      assert Sizes(comps)[..|a|][..n] == Sizes(comps)[..n];
      assert Sizes(comps)[..|a|][..n + 1] == Sizes(comps)[..|a|] && a[..n + 1] == a;
    } else {
      NothingPlaced(comps, b);
      assert a == [];
    }
  }

  lemma ShardSizeSnoc(comps: seq<Component>, a: seq<nat>, b: nat, last: nat)
    requires |a| < |comps| && PairwiseDisjoint(comps)
    ensures |ShardDrvs(comps, a + [last], b)|
         == |ShardDrvs(comps, a, b)| + if last == b then |comps[|a|].drvs| else 0
  {
    ShardSnoc(comps, a, b, last);
    LastIsNew(comps, a, b);
  }

  lemma LastIsNew(comps: seq<Component>, a: seq<nat>, b: nat)
    requires |a| < |comps| && PairwiseDisjoint(comps)
    ensures ShardDrvs(comps, a, b) !! comps[|a|].drvs
  {
    forall d | d in ShardDrvs(comps, a, b)
      ensures d !in comps[|a|].drvs
    {
      var i :| 0 <= i < |a| && a[i] == b && d in comps[i].drvs;
      assert comps[i].drvs !! comps[|a|].drvs;
    }
  }

  lemma {:induction false} ChoicesPrefix(comps: seq<Component>, n: nat, k: nat, i: nat)
    requires n <= |comps| && i <= n && (n == 0 || k > 0)
    ensures Choices(comps, n, k)[..i] == Choices(comps, i, k)
    decreases n
  {
    if i < n {
      ChoicesPrefix(comps, n - 1, k, i);
    }
  }

  lemma PackedLoads(comps: seq<Component>, k: nat, i: nat, b: nat)
    requires PairwiseDisjoint(comps) && i <= |comps| && (i == 0 || k > 0) && b < k
    ensures |Packed(comps, i, k)[b].drvs| == Load(Sizes(comps)[..i], Choices(comps, i, k), b)
  {
    PackedHoldsChoices(comps, i, k, b);
    ShardSize(comps, Choices(comps, i, k), b);
  }

  lemma ChoiceIsLightest(comps: seq<Component>, k: nat, i: nat)
    requires PairwiseDisjoint(comps) && k > 0 && i < |comps|
    ensures LightestAt(Sizes(comps), Choices(comps, |comps|, k), k, i)
  {
    var sizes, a := Sizes(comps), Choices(comps, |comps|, k);
    ChoicesPrefix(comps, |comps|, k, i);
    ChoicesPrefix(comps, |comps|, k, i + 1);
    assert a[i] == a[..i + 1][i];
    forall b: nat | b < k
      ensures Load(sizes[..i], a[..i], b) == |Packed(comps, i, k)[b].drvs|
    {
      PackedLoads(comps, k, i, b);
    }
  }

  /** The packer is the greedy schedule of the component sizes. */
  lemma ChoicesGreedy(comps: seq<Component>, k: nat)
    requires PairwiseDisjoint(comps) && (comps == [] || k > 0)
    ensures Greedy(Sizes(comps), Choices(comps, |comps|, k), k)
  {
    forall i: nat | i < |comps|
      ensures LightestAt(Sizes(comps), Choices(comps, |comps|, k), k, i)
    {
      ChoiceIsLightest(comps, k, i);
    }
  }

  // ----- results -----

  ghost predicate NonEmpty(comps: seq<Component>)
  {
    forall i :: 0 <= i < |comps| ==> comps[i].drvs != {}
  }

  ghost predicate LargestFirst(comps: seq<Component>)
  {
    forall i, j :: 0 <= i < j < |comps| ==> |comps[j].drvs| <= |comps[i].drvs|
  }

  lemma {:induction false} AllBinsKept(bins: seq<Bin>, n: nat)
    requires n <= |bins| && forall b :: 0 <= b < |bins| ==> bins[b].drvs != {}
    ensures Kept(bins, n) == bins[..n]
  {
    if n > 0 {
      AllBinsKept(bins, n - 1);
    }
  }

  lemma EveryBinChosen(comps: seq<Component>, m: nat, b: nat) returns (i: nat)
    requires PairwiseDisjoint(comps) && NonEmpty(comps) && m >= 1 && b < BinCount(comps, m)
    ensures i < |comps| && Choices(comps, |comps|, BinCount(comps, m))[i] == b
  {
    var k := BinCount(comps, m);
    var sizes, a := Sizes(comps), Choices(comps, |comps|, k);
    ChoicesGreedy(comps, k);
    forall i, j | 0 <= i < j < k
      ensures a[i] != a[j]
    {
      GreedySpreads(sizes, a, k, i, j);
    }
    ImageInjective(a, 0, k);
    assert Image(a, 0, k) <= Below(k);
    if b !in Image(a, 0, k) {
      SubsetSize(Image(a, 0, k), Below(k) - {b});
      assert false;
    }
    i :| 0 <= i < k && a[i] == b;
  }

  lemma NoBinEmpty(comps: seq<Component>, m: nat, b: nat)
    requires PairwiseDisjoint(comps) && NonEmpty(comps) && m >= 1 && b < BinCount(comps, m)
    ensures Packed(comps, |comps|, BinCount(comps, m))[b].drvs != {}
  {
    var k := BinCount(comps, m);
    var i := EveryBinChosen(comps, m, b);
    var d :| d in comps[i].drvs;
    PackedHoldsChoices(comps, |comps|, k, b);
    assert d in ShardDrvs(comps, Choices(comps, |comps|, k), b);
  }

  /** `s` is the matrix entry for what `a` puts on shard `b`. */
  ghost predicate Ships(s: Shard, comps: seq<Component>, a: seq<nat>, b: nat)
    requires |a| <= |comps|
  {
    && s.name == ShardName(ShardKinds(comps, a, b))
    && |s.drvs| > 0
    && Sorted(s.drvs, StrLe) && Distinct(s.drvs)
    && forall d :: d in s.drvs <==> d in ShardDrvs(comps, a, b)
  }

  lemma BinShips(bin: Bin, comps: seq<Component>, a: seq<nat>, b: nat)
    requires |a| <= |comps| && bin.drvs != {}
    requires bin.drvs == ShardDrvs(comps, a, b) && bin.kinds == ShardKinds(comps, a, b)
    ensures Ships(ToShard(bin), comps, a, b)
  {
  }

  /** Exactly min(#components, m) shards come out.  Shard b holds exactly the components the packer
      chose it for, so no shard is empty and no component is split. */
  lemma ShardsAreChoices(comps: seq<Component>, m: nat)
    requires PairwiseDisjoint(comps) && NonEmpty(comps) && m >= 1
    ensures var k := BinCount(comps, m);
            var shards, a := Shards(comps, m), Choices(comps, |comps|, k);
            && |shards| == k
            && IsAssignment(a, |comps|, k)
            && forall b :: 0 <= b < k ==> Ships(shards[b], comps, a, b)
  {
    var k := BinCount(comps, m);
    var bins := Packed(comps, |comps|, k);
    forall b | 0 <= b < k
      ensures bins[b].drvs != {}
    {
      NoBinEmpty(comps, m, b);
    }
    AllBinsKept(bins, k);
    assert bins[..k] == bins;
    forall b | 0 <= b < k
      ensures Ships(Shards(comps, m)[b], comps, Choices(comps, |comps|, k), b)
    {
      PackedHoldsChoices(comps, |comps|, k, b);
      BinShips(bins[b], comps, Choices(comps, |comps|, k), b);
    }
  }

  lemma SizesOrdered(comps: seq<Component>)
    requires NonEmpty(comps) && LargestFirst(comps)
    ensures Positive(Sizes(comps)) && Descending(Sizes(comps))
  {
  }

  lemma OtherFits(comps: seq<Component>, m: nat, other: seq<nat>, limit: nat)
    requires PairwiseDisjoint(comps) && IsAssignment(other, |comps|, m)
    requires forall b: nat :: b < m ==> |ShardDrvs(comps, other, b)| <= limit
    ensures Fits(Sizes(comps), other, m, limit)
  {
    forall b: nat | b < m
      ensures Load(Sizes(comps), other, b) <= limit
    {
      ShardSize(comps, other, b);
      assert Sizes(comps)[..|other|] == Sizes(comps);
    }
  }

  lemma WithinLimit(m: nat, load: nat, limit: nat)
    requires m >= 1 && load <= limit
    ensures 3 * m * load <= (4 * m - 1) * limit
  {
    MulMono(3 * m, load, limit);
    MulMono(limit, 3 * m, 4 * m - 1);
  }

  /** With a bin for every job, no bin holds more than one. */
  lemma AloneFits(sizes: seq<nat>, a: seq<nat>, k: nat, other: seq<nat>, m: nat, limit: nat, b: nat)
    requires Greedy(sizes, a, k) && Positive(sizes) && |sizes| <= k && b < k
    requires IsAssignment(other, |sizes|, m) && Fits(sizes, other, m, limit)
    ensures Load(sizes, a, b) <= limit
  {
    GreedyAlone(sizes, a, k, b);
    if Load(sizes, a, b) != 0 {
      var i :| 0 <= i < |a| && Load(sizes, a, b) == sizes[i];
      LoadAtLeastOne(sizes, other, i);
    }
  }

  lemma LoadBound(sizes: seq<nat>, a: seq<nat>, k: nat, m: nat, other: seq<nat>, limit: nat, b: nat, load: nat)
    requires Positive(sizes) && Descending(sizes) && Greedy(sizes, a, k) && b < k
    requires m >= 1 && IsAssignment(other, |sizes|, m) && Fits(sizes, other, m, limit)
    requires (k == m || |sizes| <= k) && load == Load(sizes, a, b)
    ensures 3 * m * load <= (4 * m - 1) * limit
  {
    if k == m {
      LargestFirstBound(sizes, a, m, other, limit, b);
    } else {
      AloneFits(sizes, a, k, other, m, limit, b);
      WithinLimit(m, load, limit);
    }
  }

  lemma BinBound(comps: seq<Component>, k: nat, a: seq<nat>, m: nat, other: seq<nat>, limit: nat, b: nat, load: nat)
    requires PairwiseDisjoint(comps) && NonEmpty(comps) && LargestFirst(comps) && m >= 1
    requires Greedy(Sizes(comps), a, k) && b < k && (k == m || |comps| <= k) && load == |ShardDrvs(comps, a, b)|
    requires IsAssignment(other, |comps|, m)
    requires forall c: nat :: c < m ==> |ShardDrvs(comps, other, c)| <= limit
    ensures 3 * m * load <= (4 * m - 1) * limit
  {
    SizesOrdered(comps);
    OtherFits(comps, m, other, limit);
    ShardSize(comps, a, b);
    assert Sizes(comps)[..|a|] == Sizes(comps);
    LoadBound(Sizes(comps), a, k, m, other, limit, b, load);
  }

  lemma ShardHeld(comps: seq<Component>, m: nat, s: Shard) returns (b: nat)
    requires PairwiseDisjoint(comps) && NonEmpty(comps) && m >= 1 && s in Shards(comps, m)
    ensures b < BinCount(comps, m)
    ensures |s.drvs| == |ShardDrvs(comps, Choices(comps, |comps|, BinCount(comps, m)), b)|
  {
    ShardsAreChoices(comps, m);
    b :| 0 <= b < |Shards(comps, m)| && Shards(comps, m)[b] == s;
    assert Ships(Shards(comps, m)[b], comps, Choices(comps, |comps|, BinCount(comps, m)), b);
    SameSize(s.drvs, ShardDrvs(comps, Choices(comps, |comps|, BinCount(comps, m)), b));
  }

  /** The claim of the packer's documentation, sharpened: against any way of putting whole components
      on at most m shards with none above `limit`, every emitted shard is within (4m-1)/(3m) of
      `limit`, hence within 4/3 of it. */
  lemma PackedWithinFourThirds(comps: seq<Component>, m: nat, other: seq<nat>, limit: nat, s: Shard)
    requires PairwiseDisjoint(comps) && NonEmpty(comps) && LargestFirst(comps) && m >= 1
    requires IsAssignment(other, |comps|, m)
    requires forall b: nat :: b < m ==> |ShardDrvs(comps, other, b)| <= limit
    requires s in Shards(comps, m)
    ensures 3 * m * |s.drvs| <= (4 * m - 1) * limit
    ensures 3 * |s.drvs| <= 4 * limit
  {
    var b := ShardHeld(comps, m, s);
    var k := BinCount(comps, m);
    ChoicesGreedy(comps, k);
    BinBound(comps, k, Choices(comps, |comps|, k), m, other, limit, b, |s.drvs|);
    CancelShards(m, |s.drvs|, limit);
  }

  lemma {:induction false} SameSize(r: seq<Drv>, s: set<Drv>)
    requires Distinct(r) && forall d :: d in r <==> d in s
    ensures |r| == |s|
  {
    if r == [] {
      assert s == {};
    } else {
      assert r == [r[0]] + r[1..];
      SameSize(r[1..], s - {r[0]});
    }
  }

  lemma CancelShards(m: nat, load: nat, limit: nat)
    requires m >= 1 && 3 * m * load <= (4 * m - 1) * limit
    ensures 3 * load <= 4 * limit
  {
    assert m * (3 * load) == 3 * m * load;
    assert m * (4 * limit + 1) == (4 * m - 1) * limit + limit + m;
    if 3 * load > 4 * limit {
      MulMono(m, 4 * limit + 1, 3 * load);
      assert false;
    }
  }
}

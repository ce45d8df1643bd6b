/** The packer's bound is attained for every number of shards: on components of 2m-1, 2m-1, 2m-2, 2m-2, ..., m+1,
    m+1, m, m, m drvs the packer fills a shard with 4m-1 where 3m are possible. */
module Sharpness {

  import opened Trunk
  import opened Makespan
  import opened Packing

  ghost function Tight(m: nat): (sizes: seq<nat>)
    requires m >= 1
    ensures |sizes| == 2 * m + 1
  {
    seq(2 * m + 1, i requires 0 <= i < 2 * m + 1 => if i < 2 * m then 2 * m - 1 - i / 2 else m)
  }

  lemma TightOrdered(m: nat)
    requires m >= 1
    ensures Positive(Tight(m)) && Descending(Tight(m))
  {
  }

  // ----- any greedy schedule -----

  /** A late job and the early one it joins make 3m-1. */
  lemma TightPair(m: nat, k: nat)
    requires 1 <= k <= m
    ensures Tight(m)[m - k] + Tight(m)[m + k - 1] == 3 * m - 1
  {
    assert (m - k) / 2 + (m + k - 1) / 2 == m - 1;
  }

  /** While the first 2m jobs arrive no bin exceeds 3m-1. */
  lemma {:induction false} GreedyStaysLow(m: nat, a: seq<nat>, n: nat, b: nat)
    requires m >= 1 && Greedy(Tight(m), a, m) && n <= 2 * m && b < m
    ensures Load(Tight(m)[..n], a[..n], b) <= 3 * m - 1
    decreases n
  {
    var sizes := Tight(m);
    TightOrdered(m);
    GreedyPrefix(sizes, a, m, n);
    if n <= m {
      GreedyAlone(sizes[..n], a[..n], m, b);
    } else if a[n - 1] == b {
      LastJoinsLight(sizes[..n], a[..n], m, n - m);
      TightPair(m, n - m);
    } else {
      GreedyStaysLow(m, a, n - 1, b);
      LoadSnoc(sizes, a, b, n - 1);
    }
  }

  lemma TotalSnoc(sizes: seq<nat>, k: nat)
    requires k < |sizes|
    ensures Total(sizes[..k + 1]) == Total(sizes[..k]) + sizes[k]
  {
    assert sizes[..k + 1][..k] == sizes[..k];
  }

  lemma {:induction false} TightTotal(m: nat, j: nat)
    requires 1 <= m && j <= m
    ensures Total(Tight(m)[..2 * j]) == j * (4 * m - 1 - j)
  {
    if j > 0 {
      TightTotal(m, j - 1);
      TotalSnoc(Tight(m), 2 * j - 2);
      TotalSnoc(Tight(m), 2 * j - 1);
      TotalStep(m, j);
    }
  }

  lemma TotalStep(m: nat, j: nat)
    requires 1 <= j <= m
    ensures (j - 1) * (4 * m - 1 - (j - 1)) + 2 * (2 * m - j) == j * (4 * m - 1 - j)
  {
  }

  lemma {:induction false} SumLoadsShort(sizes: seq<nat>, a: seq<nat>, m: nat, high: nat, b: nat)
    requires |sizes| == |a| && b < m && Load(sizes, a, b) < high
    requires forall c: nat :: c < m ==> Load(sizes, a, c) <= high
    ensures SumLoads(sizes, a, m) < m * high
    decreases m
  {
    assert m * high == (m - 1) * high + high;
    if b == m - 1 {
      SumLoadsHigh(sizes, a, m - 1, high);
    } else {
      SumLoadsShort(sizes, a, m - 1, high, b);
    }
  }

  /** After 2m jobs every bin holds exactly 3m-1. */
  lemma GreedyLevels(m: nat, a: seq<nat>, b: nat)
    requires m >= 1 && Greedy(Tight(m), a, m) && b < m
    ensures Load(Tight(m)[..2 * m], a[..2 * m], b) == 3 * m - 1
  {
    var sizes, first := Tight(m)[..2 * m], a[..2 * m];
    forall c: nat | c < m
      ensures Load(sizes, first, c) <= 3 * m - 1
    {
      GreedyStaysLow(m, a, 2 * m, c);
    }
    AllAssigned(Tight(m), a, m, 2 * m);
    SumLoadsIsTotal(sizes, first, m);
    TightTotal(m, m);
    assert 4 * m - 1 - m == 3 * m - 1;
    if Load(sizes, first, b) < 3 * m - 1 {
      SumLoadsShort(sizes, first, m, 3 * m - 1, b);
      assert false;
    }
  }

  lemma AllAssigned(sizes: seq<nat>, a: seq<nat>, m: nat, n: nat)
    requires Greedy(sizes, a, m) && n <= |a|
    ensures IsAssignment(a[..n], n, m)
  {
    forall i | 0 <= i < n
      ensures a[..n][i] < m
    {
      assert LightestAt(sizes, a, m, i);
    }
  }

  /** So the last job brings its bin to 4m-1, whichever bin it is. */
  lemma GreedyAttains(m: nat, a: seq<nat>)
    requires m >= 1 && Greedy(Tight(m), a, m)
    ensures a[2 * m] < m && Load(Tight(m), a, a[2 * m]) == 4 * m - 1
  {
    var sizes, b := Tight(m), a[2 * m];
    assert LightestAt(sizes, a, m, 2 * m);
    GreedyLevels(m, a, b);
    LoadSnoc(sizes, a, b, 2 * m);
    assert sizes[..2 * m + 1] == sizes && a[..2 * m + 1] == a;
  }

  // ----- a better assignment -----

  ghost function Paired(m: nat): (a: seq<nat>)
    requires m >= 1
    ensures |a| == 2 * m + 1
  {
    seq(2 * m + 1, i requires 0 <= i < 2 * m + 1 => if i < m - 1 then i else if i < 2 * m - 2 then 2 * m - 3 - i else m - 1)
  }

  lemma LoadOfPair(sizes: seq<nat>, a: seq<nat>, i: nat, j: nat)
    requires |sizes| == |a| && i < j < |a| && a[i] == a[j]
    requires forall k :: 0 <= k < |a| && k != i && k != j ==> a[k] != a[i]
    ensures Load(sizes, a, a[i]) == sizes[i] + sizes[j]
  {
    LoadUntouched(sizes, a, a[i], j + 1);
    LoadSnoc(sizes, a, a[i], j);
    LoadOfLoneJob(sizes[..j], a[..j], i);
  }

  lemma LoadOfTriple(sizes: seq<nat>, a: seq<nat>, i: nat, j: nat, l: nat)
    requires |sizes| == |a| && i < j < l < |a| && a[i] == a[j] == a[l]
    requires forall k :: 0 <= k < |a| && k != i && k != j && k != l ==> a[k] != a[i]
    ensures Load(sizes, a, a[i]) == sizes[i] + sizes[j] + sizes[l]
  {
    LoadUntouched(sizes, a, a[i], l + 1);
    LoadSnoc(sizes, a, a[i], l);
    LoadOfPair(sizes[..l], a[..l], i, j);
  }

  lemma PairSum(m: nat, b: nat)
    requires b + 1 < m
    ensures Tight(m)[b] + Tight(m)[2 * m - 3 - b] == 3 * m
  {
    assert b / 2 + (2 * m - 3 - b) / 2 == m - 2;
  }

  /** Pairing first with last and the three smallest together puts 3m in every bin. */
  lemma PairedFits(m: nat)
    requires m >= 1
    ensures IsAssignment(Paired(m), |Tight(m)|, m) && Fits(Tight(m), Paired(m), m, 3 * m)
  {
    var sizes, a := Tight(m), Paired(m);
    forall b: nat | b < m
      ensures Load(sizes, a, b) == 3 * m
    {
      if b < m - 1 {
        LoadOfPair(sizes, a, b, 2 * m - 3 - b);
        PairSum(m, b);
      } else {
        LoadOfTriple(sizes, a, 2 * m - 2, 2 * m - 1, 2 * m);
      }
    }
  }

  // ----- components of these sizes -----

  ghost function Repeat(c: char, n: nat): (s: string)
    ensures |s| == n && forall i :: 0 <= i < n ==> s[i] == c
  {
    seq(n, i => c)
  }

  ghost function Tag(i: nat, k: nat): Drv
  {
    Repeat('x', i) + "/" + Repeat('y', k)
  }

  lemma TagInjective(i: nat, k: nat, j: nat, l: nat)
    ensures Tag(i, k) == Tag(j, l) ==> i == j && k == l
  {
    assert Tag(i, k)[i] == '/' && Tag(j, l)[j] == '/';
    assert i < j ==> Tag(j, l)[i] == 'x';
    assert j < i ==> Tag(i, k)[j] == 'x';
    assert |Tag(i, k)| == i + 1 + k && |Tag(j, l)| == j + 1 + l;
  }

  ghost function Tags(i: nat, n: nat): set<Drv>
  {
    if n == 0 then {} else Tags(i, n - 1) + {Tag(i, n - 1)}
  }

  lemma {:induction false} TagsHold(i: nat, n: nat, d: Drv) returns (k: nat)
    requires d in Tags(i, n)
    ensures k < n && d == Tag(i, k)
  {
    if d == Tag(i, n - 1) {
      k := n - 1;
    } else {
      k := TagsHold(i, n - 1, d);
    }
  }

  lemma NextTagIsNew(i: nat, n: nat)
    ensures Tag(i, n) !in Tags(i, n)
  {
    if Tag(i, n) in Tags(i, n) {
      var k := TagsHold(i, n, Tag(i, n));
      TagInjective(i, k, i, n);
      assert false;
    }
  }

  lemma {:induction false} TagsCount(i: nat, n: nat)
    ensures |Tags(i, n)| == n
  {
    if n > 0 {
      TagsCount(i, n - 1);
      NextTagIsNew(i, n - 1);
    }
  }

  ghost function TightComponents(m: nat): (comps: seq<Component>)
    requires m >= 1
    ensures |comps| == 2 * m + 1
  {
    seq(2 * m + 1, i requires 0 <= i < 2 * m + 1 => Component(Tags(i, Tight(m)[i]), {}))
  }

  lemma TightComponentsFit(m: nat)
    requires m >= 1
    ensures var comps := TightComponents(m);
            Sizes(comps) == Tight(m) && PairwiseDisjoint(comps) && NonEmpty(comps) && LargestFirst(comps)
  {
    var comps := TightComponents(m);
    TightOrdered(m);
    forall i | 0 <= i < |comps|
      ensures |comps[i].drvs| == Tight(m)[i]
    {
      TagsCount(i, Tight(m)[i]);
    }
    forall i, j | 0 <= i < j < |comps|
      ensures comps[i].drvs !! comps[j].drvs
    {
      TagsApart(i, Tight(m)[i], j, Tight(m)[j]);
    }
  }

  lemma TagsApart(i: nat, n: nat, j: nat, p: nat)
    requires i != j
    ensures Tags(i, n) !! Tags(j, p)
  {
    if d :| d in Tags(i, n) && d in Tags(j, p) {
      var k := TagsHold(i, n, d);
      var l := TagsHold(j, p, d);
      TagInjective(i, k, j, l);
      assert false;
    }
  }

  lemma PairedShards(m: nat, b: nat)
    requires m >= 1 && b < m
    ensures |ShardDrvs(TightComponents(m), Paired(m), b)| <= 3 * m
  {
    TightComponentsFit(m);
    PairedFits(m);
    ShardSize(TightComponents(m), Paired(m), b);
    assert Sizes(TightComponents(m))[..2 * m + 1] == Tight(m);
  }

  /** For every m there are components for which the packer emits a shard of 4m-1 drvs although 3m per shard is
      possible, so the factor (4m-1)/(3m) cannot be improved. */
  lemma PackerAttainsBound(m: nat) returns (comps: seq<Component>, other: seq<nat>, s: Shard)
    requires m >= 1
    ensures PairwiseDisjoint(comps) && NonEmpty(comps) && LargestFirst(comps)
    ensures IsAssignment(other, |comps|, m) && forall b: nat :: b < m ==> |ShardDrvs(comps, other, b)| <= 3 * m
    ensures s in Shards(comps, m) && |s.drvs| == 4 * m - 1
  {
    comps, other := TightComponents(m), Paired(m);
    TightComponentsFit(m);
    PairedFits(m);
    forall b: nat | b < m
      ensures |ShardDrvs(comps, other, b)| <= 3 * m
    {
      PairedShards(m, b);
    }
    s := PackerFills(m);
  }

  lemma PackerFills(m: nat) returns (s: Shard)
    requires m >= 1
    ensures s in Shards(TightComponents(m), m) && |s.drvs| == 4 * m - 1
  {
    var comps := TightComponents(m);
    TightComponentsFit(m);
    var b := FullBin(m);
    s := FullShard(comps, m, b);
  }

  lemma FullBin(m: nat) returns (b: nat)
    requires m >= 1
    ensures b < m && |ShardDrvs(TightComponents(m), Choices(TightComponents(m), 2 * m + 1, m), b)| == 4 * m - 1
  {
    var comps := TightComponents(m);
    var a := Choices(comps, 2 * m + 1, m);
    TightComponentsFit(m);
    ChoicesGreedy(comps, m);
    b := FullBinOf(m, comps, a);
  }

  lemma FullBinOf(m: nat, comps: seq<Component>, a: seq<nat>) returns (b: nat)
    requires m >= 1 && PairwiseDisjoint(comps) && Sizes(comps) == Tight(m) && Greedy(Tight(m), a, m)
    ensures b < m && |ShardDrvs(comps, a, b)| == 4 * m - 1
  {
    GreedyAttains(m, a);
    b := a[2 * m];
    ShardSize(comps, a, b);
    assert Sizes(comps)[..|a|] == Tight(m);
  }

  lemma FullShard(comps: seq<Component>, m: nat, b: nat) returns (s: Shard)
    requires PairwiseDisjoint(comps) && NonEmpty(comps) && m >= 1 && |comps| >= m && b < m
    ensures s in Shards(comps, m) && |s.drvs| == |ShardDrvs(comps, Choices(comps, |comps|, m), b)|
  {
    ShardsAreChoices(comps, m);
    s := Shards(comps, m)[b];
    assert Ships(s, comps, Choices(comps, |comps|, m), b);
    SameSize(s.drvs, ShardDrvs(comps, Choices(comps, |comps|, m), b));
  }
}

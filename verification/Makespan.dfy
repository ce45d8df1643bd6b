/** Scheduling theory behind the warm-shard packer: largest-first list scheduling on m equal bins.
    Jobs are component sizes, an assignment gives each job a bin.  The main result is the sharp
    bound on how far the largest greedy bin can be from the largest bin of any assignment. */
module Makespan {

  import opened SetSizes

  ghost predicate IsAssignment(a: seq<nat>, n: nat, m: nat)
  {
    |a| == n && forall i :: 0 <= i < n ==> a[i] < m
  }

  /** Total size of the jobs that `a` puts into bin `b`. */
  ghost function Load(sizes: seq<nat>, a: seq<nat>, b: nat): nat
    requires |sizes| == |a|
  {
    if sizes == [] then 0
    else
      var k := |sizes| - 1;
      Load(sizes[..k], a[..k], b) + if a[k] == b then sizes[k] else 0
  }

  ghost function Total(sizes: seq<nat>): nat
  {
    if sizes == [] then 0 else Total(sizes[..|sizes| - 1]) + sizes[|sizes| - 1]
  }

  /** No bin of `a` holds more than `limit`. */
  ghost predicate Fits(sizes: seq<nat>, a: seq<nat>, m: nat, limit: nat)
    requires |sizes| == |a|
  {
    forall b: nat :: b < m ==> Load(sizes, a, b) <= limit
  }

  ghost predicate Descending(sizes: seq<nat>)
  {
    forall i, j :: 0 <= i <= j < |sizes| ==> sizes[j] <= sizes[i]
  }

  ghost predicate Positive(sizes: seq<nat>)
  {
    forall i :: 0 <= i < |sizes| ==> sizes[i] > 0
  }

  /** Job `i` went to a bin that was lightest when it arrived. */
  ghost predicate LightestAt(sizes: seq<nat>, a: seq<nat>, m: nat, i: nat)
    requires |sizes| == |a| && i < |a|
  {
    a[i] < m && forall b: nat :: b < m ==> Load(sizes[..i], a[..i], a[i]) <= Load(sizes[..i], a[..i], b)
  }

  ghost predicate Greedy(sizes: seq<nat>, a: seq<nat>, m: nat)
  {
    |a| == |sizes| && forall i: nat :: i < |a| ==> LightestAt(sizes, a, m, i)
  }

  // ----- loads -----

  lemma {:induction false} LoadPrefix(sizes: seq<nat>, a: seq<nat>, b: nat, k: nat)
    requires |sizes| == |a| && k <= |a|
    ensures Load(sizes[..k], a[..k], b) <= Load(sizes, a, b)
    decreases |a|
  {
    if k == |a| {
      assert sizes[..k] == sizes && a[..k] == a;
    } else {
      var n := |a| - 1;
      LoadPrefix(sizes[..n], a[..n], b, k);
      assert sizes[..n][..k] == sizes[..k] && a[..n][..k] == a[..k];
    }
  }

  /** Jobs after `k` that avoid bin `b` leave its load alone. */
  lemma {:induction false} LoadUntouched(sizes: seq<nat>, a: seq<nat>, b: nat, k: nat)
    requires |sizes| == |a| && k <= |a|
    requires forall i :: k <= i < |a| ==> a[i] != b
    ensures Load(sizes[..k], a[..k], b) == Load(sizes, a, b)
    decreases |a|
  {
    if k == |a| {
      assert sizes[..k] == sizes && a[..k] == a;
    } else {
      var n := |a| - 1;
      LoadUntouched(sizes[..n], a[..n], b, k);
      assert sizes[..n][..k] == sizes[..k] && a[..n][..k] == a[..k];
    }
  }

  lemma LoadSnoc(sizes: seq<nat>, a: seq<nat>, b: nat, k: nat)
    requires |sizes| == |a| && k < |a|
    ensures Load(sizes[..k + 1], a[..k + 1], b)
         == Load(sizes[..k], a[..k], b) + if a[k] == b then sizes[k] else 0
  {
    assert sizes[..k + 1][..k] == sizes[..k] && a[..k + 1][..k] == a[..k];
  }

  lemma LoadOfEmptyBin(sizes: seq<nat>, a: seq<nat>, b: nat)
    requires |sizes| == |a|
    requires forall i :: 0 <= i < |a| ==> a[i] != b
    ensures Load(sizes, a, b) == 0
  {
    LoadUntouched(sizes, a, b, 0);
  }

  lemma LoadOfLoneJob(sizes: seq<nat>, a: seq<nat>, i: nat)
    requires |sizes| == |a| && i < |a|
    requires forall j :: 0 <= j < |a| && j != i ==> a[j] != a[i]
    ensures Load(sizes, a, a[i]) == sizes[i]
  {
    LoadUntouched(sizes, a, a[i], i + 1);
    LoadSnoc(sizes, a, a[i], i);
    LoadOfEmptyBin(sizes[..i], a[..i], a[i]);
  }

  lemma LoadAtLeastOne(sizes: seq<nat>, a: seq<nat>, i: nat)
    requires |sizes| == |a| && i < |a|
    ensures sizes[i] <= Load(sizes, a, a[i])
  {
    LoadSnoc(sizes, a, a[i], i);
    LoadPrefix(sizes, a, a[i], i + 1);
  }

  lemma LoadAtLeastTwo(sizes: seq<nat>, a: seq<nat>, i: nat, j: nat)
    requires |sizes| == |a| && i < j < |a| && a[i] == a[j]
    ensures sizes[i] + sizes[j] <= Load(sizes, a, a[i])
  {
    LoadAtLeastOne(sizes[..j], a[..j], i);
    LoadSnoc(sizes, a, a[i], j);
    LoadPrefix(sizes, a, a[i], j + 1);
  }

  lemma LoadAtLeastThree(sizes: seq<nat>, a: seq<nat>, i: nat, j: nat, k: nat)
    requires |sizes| == |a| && i < j < k < |a| && a[i] == a[j] == a[k]
    ensures sizes[i] + sizes[j] + sizes[k] <= Load(sizes, a, a[i])
  {
    LoadAtLeastTwo(sizes[..k], a[..k], i, j);
    LoadSnoc(sizes, a, a[i], k);
    LoadPrefix(sizes, a, a[i], k + 1);
  }

  // ----- the loads of all bins add up to the total -----

  ghost function SumLoads(sizes: seq<nat>, a: seq<nat>, m: nat): nat
    requires |sizes| == |a|
  {
    if m == 0 then 0 else SumLoads(sizes, a, m - 1) + Load(sizes, a, m - 1)
  }

  lemma {:induction false} SumLoadsSnoc(sizes: seq<nat>, a: seq<nat>, m: nat)
    requires |sizes| == |a| > 0
    ensures var k := |a| - 1;
            SumLoads(sizes, a, m) == SumLoads(sizes[..k], a[..k], m) + if a[k] < m then sizes[k] else 0
  {
    if m > 0 {
      SumLoadsSnoc(sizes, a, m - 1);
    }
  }

  lemma {:induction false} SumLoadsIsTotal(sizes: seq<nat>, a: seq<nat>, m: nat)
    requires IsAssignment(a, |sizes|, m)
    ensures SumLoads(sizes, a, m) == Total(sizes)
    decreases |sizes|
  {
    if sizes == [] {
      SumLoadsHigh(sizes, a, m, 0);
    } else {
      var k := |a| - 1;
      SumLoadsSnoc(sizes, a, m);
      SumLoadsIsTotal(sizes[..k], a[..k], m);
    }
  }

  lemma {:induction false} SumLoadsLow(sizes: seq<nat>, a: seq<nat>, m: nat, low: nat)
    requires |sizes| == |a|
    requires forall b: nat :: b < m ==> low <= Load(sizes, a, b)
    ensures m * low <= SumLoads(sizes, a, m)
  {
    if m > 0 {
      SumLoadsLow(sizes, a, m - 1, low);
      assert m * low == (m - 1) * low + low;
    }
  }

  lemma {:induction false} SumLoadsHigh(sizes: seq<nat>, a: seq<nat>, m: nat, high: nat)
    requires |sizes| == |a|
    requires forall b: nat :: b < m ==> Load(sizes, a, b) <= high
    ensures SumLoads(sizes, a, m) <= m * high
  {
    if m > 0 {
      SumLoadsHigh(sizes, a, m - 1, high);
      assert m * high == (m - 1) * high + high;
    }
  }

  // ----- the greedy assignment -----

  lemma GreedyPrefix(sizes: seq<nat>, a: seq<nat>, m: nat, k: nat)
    requires Greedy(sizes, a, m) && k <= |a|
    ensures Greedy(sizes[..k], a[..k], m)
  {
    forall i: nat | i < k
      ensures LightestAt(sizes[..k], a[..k], m, i)
    {
      assert LightestAt(sizes, a, m, i);
      assert sizes[..k][..i] == sizes[..i] && a[..k][..i] == a[..i];
    }
  }

  /** Some bin holds none of fewer than `m` jobs. */
  lemma FreeBin(a: seq<nat>, m: nat) returns (b: nat)
    requires |a| < m
    ensures b < m && b !in a
  {
    var used := Image(a, 0, |a|);
    ImageSmall(a, 0, |a|);
    var all := Below(m);
    if all <= used {
      SubsetSize(all, used);
      assert false;
    }
    b :| b in all && b !in used;
  }

  /** The first `m` jobs land in different bins. */
  lemma GreedySpreads(sizes: seq<nat>, a: seq<nat>, m: nat, i: nat, j: nat)
    requires Greedy(sizes, a, m) && Positive(sizes)
    requires i < j < |a| && j < m
    ensures a[i] != a[j]
  {
    var b := FreeBin(a[..j], m);
    LoadOfEmptyBin(sizes[..j], a[..j], b);
    assert LightestAt(sizes, a, m, j);
    if a[i] == a[j] {
      LoadAtLeastOne(sizes[..j], a[..j], i);
      assert false;
    }
  }

  /** Every job is in the first m: each is alone in its bin. */
  lemma GreedyAlone(sizes: seq<nat>, a: seq<nat>, m: nat, b: nat)
    requires Greedy(sizes, a, m) && Positive(sizes) && |a| <= m
    ensures Load(sizes, a, b) == 0 || exists i :: 0 <= i < |a| && Load(sizes, a, b) == sizes[i]
  {
    if b in a {
      var i :| 0 <= i < |a| && a[i] == b;
      forall j | 0 <= j < |a| && j != i
        ensures a[j] != a[i]
      {
        if i < j { GreedySpreads(sizes, a, m, i, j); } else { GreedySpreads(sizes, a, m, j, i); }
      }
      LoadOfLoneJob(sizes, a, i);
    } else {
      LoadOfEmptyBin(sizes, a, b);
    }
  }

  // ----- small finite-set facts -----

  ghost function Below(m: nat): (s: set<nat>)
    ensures |s| == m
    ensures forall b: nat :: b in s <==> b < m
  {
    if m == 0 then {} else Below(m - 1) + {m - 1}
  }

  /** The bins of jobs lo..hi. */
  ghost function Image(a: seq<nat>, lo: nat, hi: nat): set<nat>
    requires lo <= hi <= |a|
  {
    set i | lo <= i < hi :: a[i]
  }

  lemma {:induction false} ImageSmall(a: seq<nat>, lo: nat, hi: nat)
    requires lo <= hi <= |a|
    ensures |Image(a, lo, hi)| <= hi - lo
    decreases hi
  {
    if lo < hi {
      ImageSmall(a, lo, hi - 1);
      assert Image(a, lo, hi) == Image(a, lo, hi - 1) + {a[hi - 1]};
    } else {
      assert Image(a, lo, hi) == {};
    }
  }

  lemma {:induction false} ImageInjective(a: seq<nat>, lo: nat, hi: nat)
    requires lo <= hi <= |a|
    requires forall i, j :: lo <= i < j < hi ==> a[i] != a[j]
    ensures |Image(a, lo, hi)| == hi - lo
    decreases hi
  {
    if lo < hi {
      ImageInjective(a, lo, hi - 1);
      ImageSnoc(a, lo, hi - 1);
    } else {
      assert Image(a, lo, hi) == {};
    }
  }

  lemma ImageSnoc(a: seq<nat>, lo: nat, hi: nat)
    requires lo <= hi < |a| && forall i :: lo <= i < hi ==> a[i] != a[hi]
    ensures |Image(a, lo, hi + 1)| == |Image(a, lo, hi)| + 1
  {
    assert Image(a, lo, hi + 1) == Image(a, lo, hi) + {a[hi]};
    assert a[hi] !in Image(a, lo, hi);
  }

  ghost predicate AtMostTwoPerBin(a: seq<nat>)
  {
    forall i, j, k :: 0 <= i < j < k < |a| && a[i] == a[j] ==> a[j] != a[k]
  }

  lemma ThreeElements(s: set<nat>) returns (i: nat, j: nat, k: nat)
    requires |s| >= 3
    ensures i < j < k && i in s && j in s && k in s
  {
    var x :| x in s;
    assert |s - {x}| >= 2;
    var y :| y in s - {x};
    assert |s - {x} - {y}| >= 1;
    var z :| z in s - {x} - {y};
    i := if x < y && x < z then x else if y < z then y else z;
    k := if x > y && x > z then x else if y > z then y else z;
    j := x + y + z - i - k;
  }

  ghost function InBin(a: seq<nat>, jobs: set<nat>, b: nat): set<nat>
  {
    set i: nat | i in jobs && i < |a| && a[i] == b
  }

  lemma TwoInBin(a: seq<nat>, jobs: set<nat>, b: nat)
    requires AtMostTwoPerBin(a)
    ensures |InBin(a, jobs, b)| <= 2
  {
    if |InBin(a, jobs, b)| >= 3 {
      var i, j, k := ThreeElements(InBin(a, jobs, b));
      assert false;
    }
  }

  lemma CardSplit(s: set<nat>, part: set<nat>)
    requires part <= s
    ensures |s| == |s - part| + |part|
  {
    assert s == (s - part) + part;
  }

  /** Jobs that sit at most two to a bin need half as many bins. */
  lemma {:induction false} PairsNeedBins(a: seq<nat>, jobs: set<nat>, bins: set<nat>)
    requires AtMostTwoPerBin(a)
    requires forall i: nat :: i in jobs ==> i < |a| && a[i] in bins
    ensures |jobs| <= 2 * |bins|
    decreases |bins|
  {
    if bins == {} {
      assert jobs == {};
    } else {
      var b :| b in bins;
      var here := InBin(a, jobs, b);
      TwoInBin(a, jobs, b);
      CardSplit(jobs, here);
      CardSplit(bins, {b});
      PairsNeedBins(a, jobs - here, bins - {b});
    }
  }

  // ----- the case of few large jobs: greedy is optimal -----

  /** With more than m but at most two jobs per bin, one of the m+1-k largest shares its bin. */
  lemma LargeJobShares(a: seq<nat>, m: nat, k: nat) returns (i: nat, j: nat)
    requires 1 <= k <= m && IsAssignment(a, m + k, m)
    requires AtMostTwoPerBin(a)
    ensures i <= m - k && j < |a| && i != j && a[i] == a[j]
  {
    if exists i: nat, j: nat :: i <= m - k && j < |a| && i != j && a[i] == a[j] {
      i, j :| i <= m - k && j < |a| && i != j && a[i] == a[j];
    } else {
      var q := m - k + 1;
      LaterShareBins(a, m, k, q);
      PairsNeedBins(a, Below(m + k) - Below(q), Below(m) - Image(a, 0, q));
      assert false;
    }
  }

  /** If the first q jobs share no bin, the others have the m - q remaining bins to themselves. */
  lemma LaterShareBins(a: seq<nat>, m: nat, k: nat, q: nat)
    requires 1 <= k <= m && q == m - k + 1 && IsAssignment(a, m + k, m)
    requires forall i: nat, j: nat :: i < q && j < |a| && i != j ==> a[i] != a[j]
    ensures |Below(m) - Image(a, 0, q)| == m - q && |Below(m + k) - Below(q)| == m + k - q
    ensures forall i: nat :: i in Below(m + k) - Below(q) ==> i < |a| && a[i] in Below(m) - Image(a, 0, q)
  {
    ImageInjective(a, 0, q);
    DifferenceSize(Below(m), Image(a, 0, q));
    DifferenceSize(Below(m + k), Below(q));
    forall i: nat | i in Below(m + k) - Below(q)
      ensures i < |a| && a[i] in Below(m) - Image(a, 0, q)
    {
      assert forall j :: 0 <= j < q ==> a[j] != a[i];
    }
  }

  /** Before job m+k-1 arrives some greedy bin still holds just one of the jobs m-k..m-1. */
  lemma LightBin(sizes: seq<nat>, a: seq<nat>, m: nat, k: nat) returns (b: nat)
    requires 1 <= k <= m && |a| == m + k - 1
    requires Greedy(sizes, a, m) && Positive(sizes) && Descending(sizes)
    ensures b < m && Load(sizes, a, b) <= sizes[m - k]
  {
    var q := m - k;
    forall i, j | q <= i < j < m
      ensures a[i] != a[j]
    {
      GreedySpreads(sizes, a, m, i, j);
    }
    ImageInjective(a, q, m);
    ImageSmall(a, m, |a|);
    if Image(a, q, m) <= Image(a, m, |a|) {
      SubsetSize(Image(a, q, m), Image(a, m, |a|));
      assert false;
    }
    b :| b in Image(a, q, m) && b !in Image(a, m, |a|);
    var i :| q <= i < m && a[i] == b;
    forall j | 0 <= j < |a| && j != i
      ensures a[j] != a[i]
    {
      if j < m {
        if i < j { GreedySpreads(sizes, a, m, i, j); } else { GreedySpreads(sizes, a, m, j, i); }
      } else {
        assert a[j] in Image(a, m, |a|);
      }
    }
    LoadOfLoneJob(sizes, a, i);
    assert LightestAt(sizes, a, m, i);
  }

  /** A bin for every job: the last one is alone. */
  lemma LastAlone(sizes: seq<nat>, a: seq<nat>, m: nat, other: seq<nat>, limit: nat)
    requires 0 < |sizes| <= m && Greedy(sizes, a, m) && Positive(sizes)
    requires IsAssignment(other, |sizes|, m) && Fits(sizes, other, m, limit)
    ensures Load(sizes, a, a[|a| - 1]) <= limit
  {
    var l := |sizes| - 1;
    forall j | 0 <= j < l
      ensures a[j] != a[l]
    {
      GreedySpreads(sizes, a, m, j, l);
    }
    LoadOfLoneJob(sizes, a, l);
    LoadAtLeastOne(sizes, other, l);
  }

  /** Some bin of the other assignment holds two jobs as large as these. */
  lemma OtherDoubles(sizes: seq<nat>, m: nat, k: nat, other: seq<nat>, limit: nat)
    requires 1 <= k <= m && |sizes| == m + k && Descending(sizes)
    requires IsAssignment(other, |sizes|, m) && Fits(sizes, other, m, limit) && AtMostTwoPerBin(other)
    ensures sizes[m - k] + sizes[|sizes| - 1] <= limit
  {
    var i, j := LargeJobShares(other, m, k);
    if i < j { LoadAtLeastTwo(sizes, other, i, j); } else { LoadAtLeastTwo(sizes, other, j, i); }
    assert sizes[m - k] <= sizes[i] && sizes[|sizes| - 1] <= sizes[j];
  }

  /** Before the last job the bin it joins is no heavier than job m-k. */
  lemma LastJoinsLight(sizes: seq<nat>, a: seq<nat>, m: nat, k: nat)
    requires 1 <= k <= m && |sizes| == m + k && Greedy(sizes, a, m) && Positive(sizes) && Descending(sizes)
    ensures Load(sizes, a, a[|a| - 1]) <= sizes[m - k] + sizes[|sizes| - 1]
  {
    var l := |sizes| - 1;
    GreedyPrefix(sizes, a, m, l);
    var b := LightBin(sizes[..l], a[..l], m, k);
    assert LightestAt(sizes, a, m, l);
    assert Load(sizes[..l], a[..l], a[l]) <= sizes[m - k];
    LoadSnoc(sizes, a, a[l], l);
    assert sizes[..l + 1] == sizes && a[..l + 1] == a;
  }

  /** If the last job exceeds a third of the limit, the bin it lands in stays within the limit. */
  lemma FewLargeJobs(sizes: seq<nat>, a: seq<nat>, m: nat, other: seq<nat>, limit: nat)
    requires |sizes| > 0 && Greedy(sizes, a, m) && Positive(sizes) && Descending(sizes)
    requires IsAssignment(other, |sizes|, m) && Fits(sizes, other, m, limit)
    requires 3 * sizes[|sizes| - 1] > limit
    ensures Load(sizes, a, a[|a| - 1]) <= limit
  {
    AtMostTwo(sizes, other, m, limit);
    if |a| <= m {
      LastAlone(sizes, a, m, other, limit);
    } else {
      PairsNeedBins(other, Below(|sizes|), Below(m));
      OtherDoubles(sizes, m, |a| - m, other, limit);
      LastJoinsLight(sizes, a, m, |a| - m);
    }
  }

  lemma AtMostTwo(sizes: seq<nat>, other: seq<nat>, m: nat, limit: nat)
    requires |sizes| > 0 && Descending(sizes)
    requires IsAssignment(other, |sizes|, m) && Fits(sizes, other, m, limit)
    requires 3 * sizes[|sizes| - 1] > limit
    ensures AtMostTwoPerBin(other)
  {
    forall i, j, k | 0 <= i < j < k < |other| && other[i] == other[j]
      ensures other[j] != other[k]
    {
      if other[j] == other[k] {
        LoadAtLeastThree(sizes, other, i, j, k);
        assert false;
      }
    }
  }

  // ----- the bound -----

  /** Averaging: when the last job arrives its bin is no heavier than the mean. */
  lemma AverageBound(sizes: seq<nat>, a: seq<nat>, m: nat, other: seq<nat>, limit: nat)
    requires |sizes| > 0 && Greedy(sizes, a, m)
    requires IsAssignment(other, |sizes|, m) && Fits(sizes, other, m, limit)
    ensures m * Load(sizes, a, a[|a| - 1]) <= m * limit + (m - 1) * sizes[|sizes| - 1]
  {
    var l := |sizes| - 1;
    var before := Load(sizes[..l], a[..l], a[l]);
    assert LightestAt(sizes, a, m, l);
    forall i | 0 <= i < l
      ensures a[i] < m
    {
      assert LightestAt(sizes, a, m, i);
    }
    SumLoadsLow(sizes[..l], a[..l], m, before);
    SumLoadsIsTotal(sizes[..l], a[..l], m);
    SumLoadsHigh(sizes, other, m, limit);
    SumLoadsIsTotal(sizes, other, m);
    MeanArithmetic(m, before, sizes[l], limit, Total(sizes));
  }

  lemma MeanArithmetic(m: nat, before: nat, last: nat, limit: nat, total: nat)
    requires m * before + last <= total <= m * limit
    ensures m * (before + last) <= m * limit + (m - 1) * last
  {
    assert m * (before + last) == m * before + m * last;
    assert (m - 1) * last == m * last - last;
  }

  lemma BoundForLastJob(sizes: seq<nat>, a: seq<nat>, m: nat, other: seq<nat>, limit: nat)
    requires m >= 1 && |sizes| > 0 && Greedy(sizes, a, m) && Positive(sizes) && Descending(sizes)
    requires IsAssignment(other, |sizes|, m) && Fits(sizes, other, m, limit)
    ensures 3 * m * Load(sizes, a, a[|a| - 1]) <= (4 * m - 1) * limit
  {
    var last := sizes[|sizes| - 1];
    var load := Load(sizes, a, a[|a| - 1]);
    if 3 * last > limit {
      FewLargeJobs(sizes, a, m, other, limit);
      MulMono(3 * m, load, limit);
      MulMono(limit, 3 * m, 4 * m - 1);
    } else {
      AverageBound(sizes, a, m, other, limit);
      RatioArithmetic(m, load, last, limit);
    }
  }

  lemma RatioArithmetic(m: nat, load: nat, last: nat, limit: nat)
    requires m >= 1 && m * load <= m * limit + (m - 1) * last && 3 * last <= limit
    ensures 3 * m * load <= (4 * m - 1) * limit
  {
    MulMono(m - 1, 3 * last, limit);
    calc {
      3 * m * load;
      3 * (m * load);
    <=
      3 * (m * limit) + 3 * ((m - 1) * last);
      3 * (m * limit) + (m - 1) * (3 * last);
    <=
      3 * (m * limit) + (m - 1) * limit;
      (4 * m - 1) * limit;
    }
  }

  lemma MulMono(k: nat, x: int, y: int)
    requires x <= y
    ensures k * x <= k * y
    ensures x * k <= y * k
  {
  }

  /** Graham's bound: on jobs taken largest first, every greedy bin is within 4/3 - 1/(3m) of the
      largest bin of any other assignment to m bins. */
  lemma LargestFirstBound(sizes: seq<nat>, a: seq<nat>, m: nat, other: seq<nat>, limit: nat, b: nat)
    requires m >= 1 && Greedy(sizes, a, m) && Positive(sizes) && Descending(sizes)
    requires IsAssignment(other, |sizes|, m) && Fits(sizes, other, m, limit)
    ensures 3 * m * Load(sizes, a, b) <= (4 * m - 1) * limit
  {
    if b !in a {
      LoadOfEmptyBin(sizes, a, b);
      assert 3 * m * 0 == 0;
      MulMono(limit, 0, 4 * m - 1);
    } else {
      var l := LastIn(a, b);
      var n := l + 1;
      LoadUntouched(sizes, a, b, n);
      GreedyPrefix(sizes, a, m, n);
      forall c: nat | c < m
        ensures Load(sizes[..n], other[..n], c) <= limit
      {
        LoadPrefix(sizes, other, c, n);
      }
      BoundForLastJob(sizes[..n], a[..n], m, other[..n], limit);
    }
  }

  lemma {:induction false} LastIn(a: seq<nat>, b: nat) returns (l: nat)
    requires b in a
    ensures l < |a| && a[l] == b && forall i :: l < i < |a| ==> a[i] != b
    decreases |a|
  {
    l := |a| - 1;
    if a[l] != b {
      assert b in a[..l];
      l := LastIn(a[..l], b);
    }
  }
}

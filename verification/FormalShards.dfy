/** `cluster_formal`: kani and heavy checks alone, the rest dealt round-robin into shards. */
module FormalShards {

  import opened Options
  import opened Ordering
  import opened Clusters

  // ----- rest[i::count] -----

  /** How many of the positions i, i+c, i+2c, ... are below n. */
  function StrideLen(n: nat, i: nat, c: nat): nat
    requires i < c
  {
    n / c + if i < n % c then 1 else 0
  }

  lemma DivMod(n: nat, c: nat)
    requires c > 0
    ensures n == (n / c) * c + n % c && n % c < c
  {
  }

  lemma MulGap(j: nat, k: nat, c: nat)
    requires j < k
    ensures j * c + c <= k * c
  {
    assert k * c == j * c + (k - j) * c;
    assert (k - j) * c == c + (k - j - 1) * c;
  }

  /** Position i + j*c exists in a list of length n exactly for j below the stride's length. */
  lemma StrideInRange(n: nat, i: nat, c: nat, j: nat)
    requires i < c
    ensures i + j * c < n <==> j < StrideLen(n, i, c)
  {
    DivMod(n, c);
    var q, r := n / c, n % c;
    if j < q {
      MulGap(j, q, c);
    } else if j > q {
      MulGap(q, j, c);
    }
  }

  /** `s[i::c]`. */
  function Stride(s: seq<string>, i: nat, c: nat): seq<string>
    requires i < c
  {
    seq(StrideLen(|s|, i, c), j requires 0 <= j < StrideLen(|s|, i, c) => (StrideInRange(|s|, i, c, j); s[i + j * c]))
  }

  lemma StrideLenSnoc(n: nat, i: nat, c: nat)
    requires i < c
    ensures StrideLen(n + 1, i, c) == StrideLen(n, i, c) + if n % c == i then 1 else 0
    ensures n % c == i ==> i + StrideLen(n, i, c) * c == n
  {
    DivMod(n, c);
    NextDivMod(n, c);
  }

  lemma NextDivMod(n: nat, c: nat)
    requires c > 0
    ensures if n % c + 1 < c then (n + 1) / c == n / c && (n + 1) % c == n % c + 1
            else (n + 1) / c == n / c + 1 && (n + 1) % c == 0
  {
    DivMod(n, c);
    DivMod(n + 1, c);
    var q, r, q', r' := n / c, n % c, (n + 1) / c, (n + 1) % c;
    assert (q + 1) * c == q * c + c;
    if q' < q { MulGap(q', q, c); }
    if q' > q + 1 { MulGap(q + 1, q', c); }
  }

  lemma StrideSnoc(s: seq<string>, x: string, i: nat, c: nat)
    requires i < c
    ensures Stride(s + [x], i, c) == Stride(s, i, c) + if |s| % c == i then [x] else []
  {
    var n := |s|;
    StrideLenSnoc(n, i, c);
    var l := Stride(s + [x], i, c);
    forall j | 0 <= j < StrideLen(n, i, c)
      ensures l[j] == Stride(s, i, c)[j]
    {
      StrideInRange(n, i, c, j);
    }
  }

  ghost function SumStrides(s: seq<string>, c: nat, k: nat): multiset<string>
    requires k <= c
  {
    if k == 0 then multiset{} else SumStrides(s, c, k - 1) + multiset(Stride(s, k - 1, c))
  }

  lemma MultisetSnoc(r: seq<string>, x: string, put: bool)
    ensures multiset(r + if put then [x] else []) == multiset(r) + if put then multiset{x} else multiset{}
  {
  }

  lemma StrideBag(s: seq<string>, x: string, i: nat, c: nat)
    requires i < c
    ensures multiset(Stride(s + [x], i, c)) == multiset(Stride(s, i, c)) + if |s| % c == i then multiset{x} else multiset{}
  {
    StrideSnoc(s, x, i, c);
    MultisetSnoc(Stride(s, i, c), x, |s| % c == i);
  }

  lemma {:induction false} SumStridesSnoc(s: seq<string>, x: string, c: nat, k: nat)
    requires k <= c && c > 0
    ensures SumStrides(s + [x], c, k) == SumStrides(s, c, k) + if |s| % c < k then multiset{x} else multiset{}
  {
    if k > 0 {
      SumStridesSnoc(s, x, c, k - 1);
      StrideBag(s, x, k - 1, c);
      SumNext(SumStrides(s, c, k - 1), SumStrides(s + [x], c, k - 1), multiset(Stride(s, k - 1, c)),
              multiset(Stride(s + [x], k - 1, c)), x, |s| % c, k - 1);
    }
  }

  lemma SumNext(a: multiset<string>, a': multiset<string>, b: multiset<string>, b': multiset<string>, x: string, r: nat, k: nat)
    requires a' == a + if r < k then multiset{x} else multiset{}
    requires b' == b + if r == k then multiset{x} else multiset{}
    ensures a' + b' == a + b + if r < k + 1 then multiset{x} else multiset{}
  {
  }

  lemma {:induction false} SumStridesEmpty(c: nat, k: nat)
    requires k <= c && c > 0
    ensures SumStrides([], c, k) == multiset{}
  {
    if k > 0 {
      SumStridesEmpty(c, k - 1);
      DivMod(0, c);
      assert Stride([], k - 1, c) == [];
    }
  }

  /** The strides deal out the whole list. */
  lemma {:induction false} SumStridesAll(s: seq<string>, c: nat)
    requires c > 0
    ensures SumStrides(s, c, c) == multiset(s)
  {
    if s == [] {
      SumStridesEmpty(c, c);
    } else {
      var k := |s| - 1;
      SumStridesAll(s[..k], c);
      SumStridesSnoc(s[..k], s[k], c, c);
      assert s == s[..k] + [s[k]];
    }
  }

  // ----- the shards -----

  function CeilDiv(n: nat, size: nat): nat
    requires size > 0
  {
    (n + size - 1) / size
  }

  function Digits(n: nat): string
  {
    var last := [('0' as int + n % 10) as char];
    if n < 10 then last else Digits(n / 10) + last
  }

  function ZeroPad(s: string, width: nat): string
    decreases width - |s|
  {
    if |s| < width then ZeroPad("0" + s, width) else s
  }

  function ShardLabel(i: nat, count: nat): string
  {
    "quint-" + ZeroPad(Digits(i + 1), |Digits(count)|) + "of" + Digits(count)
  }

  function Deal(rest: seq<string>, count: nat): seq<Cluster>
    requires count > 0
  {
    seq(count, i requires 0 <= i < count => Cluster(ShardLabel(i, count), Stride(rest, i, count)))
  }

  lemma AllTargetsSnoc(cs: seq<Cluster>, c: Cluster)
    ensures AllTargets(cs + [c]) == AllTargets(cs) + c.targets
  {
    AllTargetsConcat(cs, [c]);
    assert [c][1..] == [];
    assert AllTargets([c]) == c.targets + AllTargets([]);
  }

  lemma {:induction false} DealTargets(rest: seq<string>, c: nat, k: nat)
    requires k <= c && c > 0
    ensures multiset(AllTargets(Deal(rest, c)[..k])) == SumStrides(rest, c, k)
  {
    if k > 0 {
      DealTargets(rest, c, k - 1);
      PrefixTargets(Deal(rest, c), k - 1);
    }
  }

  lemma PrefixTargets(d: seq<Cluster>, k: nat)
    requires k < |d|
    ensures multiset(AllTargets(d[..k + 1])) == multiset(AllTargets(d[..k])) + multiset(d[k].targets)
  {
    assert d[..k + 1] == d[..k] + [d[k]];
    AllTargetsSnoc(d[..k], d[k]);
  }

  lemma CeilDivBounds(n: nat, size: nat)
    requires n > 0 && size > 0
    ensures 1 <= CeilDiv(n, size) <= n
    ensures n <= CeilDiv(n, size) * size < n + size
  {
    DivMod(n + size - 1, size);
    var q := CeilDiv(n, size);
    assert n <= n * size by { if size > 1 { MulGap(1, size, n); } }
    if q > n {
      MulGap(n, q, size);
    }
  }

  lemma QuotientAtLeastOne(n: nat, c: nat)
    requires 1 <= c <= n
    ensures n / c >= 1
  {
    DivMod(n, c);
  }

  /** Dealing keeps every light name once and leaves no shard empty. */
  lemma DealConserves(rest: seq<string>, size: nat)
    requires rest != [] && size > 0
    ensures CeilDiv(|rest|, size) > 0 && Conserves(Deal(rest, CeilDiv(|rest|, size)), rest)
  {
    CeilDivBounds(|rest|, size);
    var c := CeilDiv(|rest|, size);
    DealTargets(rest, c, c);
    SumStridesAll(rest, c);
    assert Deal(rest, c)[..c] == Deal(rest, c);
    QuotientAtLeastOne(|rest|, c);
  }

  /** Ceil(n/size) shards, none above the size limit, sizes within one of each other. */
  lemma DealBalanced(rest: seq<string>, size: nat, i: nat, j: nat)
    requires rest != [] && size > 0
    requires i < CeilDiv(|rest|, size) && j < CeilDiv(|rest|, size)
    ensures var shards := Deal(rest, CeilDiv(|rest|, size));
            && |shards| == CeilDiv(|rest|, size)
            && |shards[i].targets| <= size
            && |shards[i].targets| <= |shards[j].targets| + 1
  {
    var n, c := |rest|, CeilDiv(|rest|, size);
    CeilDivBounds(n, size);
    DivMod(n, c);
    assert size * c == c * size;
    if n / c > size {
      MulGap(size, n / c, c);
      assert false;
    }
  }

  /** Name p of the sorted list is in shard p mod count. */
  lemma DealtWhere(rest: seq<string>, count: nat, p: nat)
    requires count > 0 && p < |rest|
    ensures p / count < |Stride(rest, p % count, count)|
    ensures Stride(rest, p % count, count)[p / count] == rest[p]
  {
    DivMod(p, count);
    StrideInRange(|rest|, p % count, count, p / count);
  }

  lemma DealtIn(rest: seq<string>, count: nat, p: nat)
    requires count > 0 && p < |rest|
    ensures rest[p] in Deal(rest, count)[p % count].targets
  {
    DealtWhere(rest, count, p);
    var shard := Stride(rest, p % count, count);
    assert shard[p / count] in shard;
  }

  lemma SameResidue(p: nat, q: nat, c: nat)
    requires c > 0 && p < q < p + c
    ensures q % c != p % c
  {
    DivMod(p, c);
    DivMod(q, c);
    var a, b := p / c, q / c;
    if a < b { MulGap(a, b, c); }
    if b < a { MulGap(b, a, c); }
  }

  /** Any `count` adjacent names go to pairwise different shards. */
  lemma DealSpreads(rest: seq<string>, count: nat, p: nat, q: nat)
    requires count > 0 && p < q < p + count && q < |rest|
    ensures rest[p] in Deal(rest, count)[p % count].targets
    ensures rest[q] in Deal(rest, count)[q % count].targets
    ensures p % count != q % count
  {
    DealtIn(rest, count, p);
    DealtIn(rest, count, q);
    SameResidue(p, q, count);
  }

  // ----- the clusterer -----

  /** FORMAL_SHARD_SIZE as the environment gives it. */
  datatype Knob = Unset | NotAnInteger | Integer(value: int)

  /** None is the hard failure on anything but an integer of at least one. */
  function FormalShardSize(knob: Knob): (size: Option<nat>)
    ensures size.None? <==> knob.NotAnInteger? || (knob.Integer? && knob.value < 1)
    ensures size.Some? ==> size.value >= 1 && (knob.Integer? ==> size.value == knob.value)
    ensures knob.Unset? ==> size == Some(12)
  {
    match knob
    case Unset => Some(DEFAULT_FORMAL_SHARD_SIZE)
    case NotAnInteger => None
    case Integer(v) => if v < 1 then None else Some(v)
  }

  predicate IsKani(name: string)
  {
    StartsWith(name, "kani-")
  }

  predicate IsHeavy(heap: map<string, Option<int>>, name: string)
  {
    name in heap && heap[name].Some? && heap[name].value > FORMAL_SHARD_BUDGET_MB / 2
  }

  function KaniNames(names: seq<string>): seq<string>
  {
    Sort(Filter(names, x => IsKani(x)), StrLe)
  }

  function HeavyNames(names: seq<string>, heap: map<string, Option<int>>): seq<string>
  {
    Sort(Filter(Filter(names, x => !IsKani(x)), x => IsHeavy(heap, x)), StrLe)
  }

  function LightNames(names: seq<string>, heap: map<string, Option<int>>): seq<string>
  {
    Sort(Filter(Filter(names, x => !IsKani(x)), x => !IsHeavy(heap, x)), StrLe)
  }

  function DealAll(rest: seq<string>, size: nat): seq<Cluster>
    requires size > 0
  {
    if rest == [] then []
    else
      CeilDivBounds(|rest|, size);
      Deal(rest, CeilDiv(|rest|, size))
  }

  function ClusterFormal(names: seq<string>, size: nat, heap: map<string, Option<int>>): seq<Cluster>
    requires size > 0
  {
    Singles(KaniNames(names)) + Singles(HeavyNames(names, heap)) + DealAll(LightNames(names, heap), size)
  }

  lemma FormalNamesSplit(names: seq<string>, heap: map<string, Option<int>>)
    ensures multiset(KaniNames(names) + HeavyNames(names, heap) + LightNames(names, heap)) == multiset(names)
  {
    var others := Filter(names, x => !IsKani(x));
    FilterSplits(names, x => IsKani(x), x => !IsKani(x));
    FilterSplits(others, x => IsHeavy(heap, x), x => !IsHeavy(heap, x));
  }

  /** No formal check is dropped: kani and heavy ones are alone, light ones are dealt. */
  lemma FormalConserves(names: seq<string>, size: nat, heap: map<string, Option<int>>)
    requires size > 0
    ensures Conserves(ClusterFormal(names, size, heap), names)
  {
    var kani, heavy, light := KaniNames(names), HeavyNames(names, heap), LightNames(names, heap);
    SinglesConserve(kani);
    SinglesConserve(heavy);
    if light != [] {
      DealConserves(light, size);
    }
    ConservesConcat(Singles(kani), kani, Singles(heavy), heavy);
    ConservesConcat(Singles(kani) + Singles(heavy), kani + heavy, DealAll(light, size), light);
    FormalNamesSplit(names, heap);
    ConservesSorted(ClusterFormal(names, size, heap), kani + heavy + light, names);
  }

  lemma StrideMember(s: seq<string>, i: nat, c: nat, x: string)
    requires i < c && x in Stride(s, i, c)
    ensures x in s
  {
    var j :| 0 <= j < StrideLen(|s|, i, c) && Stride(s, i, c)[j] == x;
    StrideInRange(|s|, i, c, j);
  }

  lemma DealtAreLight(rest: seq<string>, size: nat, c: Cluster, x: string)
    requires size > 0 && c in DealAll(rest, size) && x in c.targets
    ensures x in rest
  {
    CeilDivBounds(|rest|, size);
    var count := CeilDiv(|rest|, size);
    var i :| 0 <= i < count && Deal(rest, count)[i] == c;
    StrideMember(rest, i, count, x);
  }

  lemma LightMeansLight(names: seq<string>, heap: map<string, Option<int>>, x: string)
    requires x in LightNames(names, heap)
    ensures !IsKani(x) && !IsHeavy(heap, x)
  {
    FilterCount(Filter(names, y => !IsKani(y)), y => !IsHeavy(heap, y), x);
    FilterCount(names, y => !IsKani(y), x);
    assert x in multiset(LightNames(names, heap));
  }

  lemma NotDealt(names: seq<string>, size: nat, heap: map<string, Option<int>>, c: Cluster, x: string)
    requires size > 0 && x in c.targets && (IsKani(x) || IsHeavy(heap, x))
    ensures c !in DealAll(LightNames(names, heap), size)
  {
    var light := LightNames(names, heap);
    if c in DealAll(light, size) {
      DealtAreLight(light, size, c, x);
      LightMeansLight(names, heap, x);
      assert false;
    }
  }

  lemma SinglesAlone(names: seq<string>, c: Cluster, x: string)
    requires c in Singles(names) && x in c.targets
    ensures c.targets == [x]
  {
  }

  /** Two heavy servers never share a runner, and a kani check never shares one. */
  lemma HeavyAlone(names: seq<string>, size: nat, heap: map<string, Option<int>>, c: Cluster, x: string)
    requires size > 0 && c in ClusterFormal(names, size, heap) && x in c.targets
    requires IsKani(x) || IsHeavy(heap, x)
    ensures c.targets == [x]
  {
    NotDealt(names, size, heap, c, x);
    if c in Singles(KaniNames(names)) {
      SinglesAlone(KaniNames(names), c, x);
    } else {
      SinglesAlone(HeavyNames(names, heap), c, x);
    }
  }
}

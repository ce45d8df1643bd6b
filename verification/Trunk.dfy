/** The shared trunk of the CI build graph and its co-occurrence classes, as definitions.
    Every cluster contributes a `Need`: its matrix kind and the uncached drvs its members need. */
module Trunk {
  import opened Ordering

  type Drv = string
  type Kind = string

  datatype Need = Need(kind: Kind, drvs: set<Drv>)

  /** Drvs needed by at least two clusters, whatever their kinds. */
  ghost predicate Shared(needs: seq<Need>, d: Drv)
  {
    exists i, j :: 0 <= i < j < |needs| && d in needs[i].drvs && d in needs[j].drvs
  }

  ghost predicate IsTrunk(needs: seq<Need>, trunk: set<Drv>)
  {
    forall d :: d in trunk <==> Shared(needs, d)
  }

  /** Counts clusters per drv, one cluster at a time. */
  method GlobalTrunk(needs: seq<Need>) returns (trunk: set<Drv>)
    ensures IsTrunk(needs, trunk)
  {
    var counts: map<Drv, nat> := map[];
    for n := 0 to |needs|
      invariant forall d :: d in counts <==> Count(needs[..n], d) > 0
      invariant forall d :: d in counts ==> counts[d] == Count(needs[..n], d)
    {
      ghost var before := counts;
      var todo := needs[n].drvs;
      while todo != {}
        invariant todo <= needs[n].drvs
        invariant forall d :: d in counts <==> d in before || d in needs[n].drvs - todo
        invariant forall d :: d in counts ==>
          counts[d] == (if d in before then before[d] else 0) + if d in needs[n].drvs - todo then 1 else 0
        decreases todo
      {
        var drv :| drv in todo;
        counts := counts[drv := (if drv in counts then counts[drv] else 0) + 1];
        todo := todo - {drv};
      }
      assert needs[..n + 1][..n] == needs[..n];
    }
    assert needs[..|needs|] == needs;
    trunk := set drv | drv in counts && counts[drv] >= 2;
    forall d
      ensures d in trunk <==> Shared(needs, d)
    {
      CountTwo(needs, d);
    }
  }

  /** How many clusters need `d`. */
  ghost function Count(needs: seq<Need>, d: Drv): nat
  {
    if needs == [] then 0
    else Count(needs[..|needs| - 1], d) + if d in needs[|needs| - 1].drvs then 1 else 0
  }

  lemma {:induction false} CountOne(needs: seq<Need>, d: Drv)
    ensures Count(needs, d) >= 1 <==> exists i :: 0 <= i < |needs| && d in needs[i].drvs
  {
    if needs != [] {
      var k := |needs| - 1;
      CountOne(needs[..k], d);
      if i :| 0 <= i < |needs| && d in needs[i].drvs {
        assert i < k ==> d in needs[..k][i].drvs;
      }
    }
  }

  lemma {:induction false} CountTwo(needs: seq<Need>, d: Drv)
    ensures Count(needs, d) >= 2 <==> Shared(needs, d)
  {
    if needs != [] {
      var k := |needs| - 1;
      CountTwo(needs[..k], d);
      CountOne(needs[..k], d);
      if Shared(needs, d) {
        var i, j :| 0 <= i < j < |needs| && d in needs[i].drvs && d in needs[j].drvs;
        assert d in needs[..k][i].drvs;
        assert j < k ==> d in needs[..k][j].drvs;
      }
      if Shared(needs[..k], d) {
        var i, j :| 0 <= i < j < k && d in needs[..k][i].drvs && d in needs[..k][j].drvs;
        assert d in needs[i].drvs && d in needs[j].drvs;
      }
      if Count(needs[..k], d) >= 1 && d in needs[k].drvs {
        var i :| 0 <= i < k && d in needs[..k][i].drvs;
        assert d in needs[i].drvs;
      }
    }
  }

  // ----- co-occurrence -----

  ghost predicate CoOccur(needs: seq<Need>, a: Drv, b: Drv)
  {
    exists i :: 0 <= i < |needs| && a in needs[i].drvs && b in needs[i].drvs
  }

  /** Consecutive trunk drvs of `p` are each needed together by some cluster. */
  ghost predicate Chain(needs: seq<Need>, trunk: set<Drv>, p: seq<Drv>)
  {
    && |p| > 0
    && (forall i :: 0 <= i < |p| ==> p[i] in trunk)
    && (forall i :: 0 <= i < |p| - 1 ==> CoOccur(needs, p[i], p[i + 1]))
  }

  ghost predicate Joins(needs: seq<Need>, trunk: set<Drv>, p: seq<Drv>, a: Drv, b: Drv)
  {
    Chain(needs, trunk, p) && p[0] == a && p[|p| - 1] == b
  }

  /** Transitive closure of "some cluster needs both", inside the trunk. */
  ghost predicate Connected(needs: seq<Need>, trunk: set<Drv>, a: Drv, b: Drv)
  {
    exists p :: Joins(needs, trunk, p, a, b)
  }

  lemma ConnectedRefl(needs: seq<Need>, trunk: set<Drv>, a: Drv)
    requires a in trunk
    ensures Connected(needs, trunk, a, a)
  {
    assert Joins(needs, trunk, [a], a, a);
  }

  lemma ConnectedStep(needs: seq<Need>, trunk: set<Drv>, a: Drv, b: Drv)
    requires a in trunk && b in trunk && CoOccur(needs, a, b)
    ensures Connected(needs, trunk, a, b)
  {
    assert Joins(needs, trunk, [a, b], a, b);
  }

  lemma ConnectedTrans(needs: seq<Need>, trunk: set<Drv>, a: Drv, b: Drv, c: Drv)
    requires Connected(needs, trunk, a, b) && Connected(needs, trunk, b, c)
    ensures Connected(needs, trunk, a, c)
  {
    var p :| Joins(needs, trunk, p, a, b);
    var q :| Joins(needs, trunk, q, b, c);
    var r := p + q[1..];
    forall i | 0 <= i < |r| - 1
      ensures CoOccur(needs, r[i], r[i + 1])
    {
      if i < |p| - 1 {
        assert CoOccur(needs, p[i], p[i + 1]);
      } else {
        var k := i - (|p| - 1);
        assert r[i] == q[k] && r[i + 1] == q[k + 1];
      }
    }
    assert Joins(needs, trunk, r, a, c);
  }

  lemma ConnectedSym(needs: seq<Need>, trunk: set<Drv>, a: Drv, b: Drv)
    requires Connected(needs, trunk, a, b)
    ensures Connected(needs, trunk, b, a)
  {
    var p :| Joins(needs, trunk, p, a, b);
    var r := seq(|p|, i requires 0 <= i < |p| => p[|p| - 1 - i]);
    forall i | 0 <= i < |r| - 1
      ensures CoOccur(needs, r[i], r[i + 1])
    {
      assert CoOccur(needs, p[|p| - 2 - i], p[|p| - 2 - i + 1]);
    }
    assert Joins(needs, trunk, r, b, a);
  }

  // ----- components -----

  datatype Component = Component(drvs: set<Drv>, kinds: set<Kind>)

  /** Kinds with a cluster that touches `drvs`. */
  ghost function KindsTouching(needs: seq<Need>, drvs: set<Drv>): set<Kind>
  {
    set i | 0 <= i < |needs| && needs[i].drvs * drvs != {} :: needs[i].kind
  }

  ghost predicate IsClass(needs: seq<Need>, trunk: set<Drv>, c: Component)
  {
    && c.drvs != {}
    && c.drvs <= trunk
    && (forall a, b :: a in c.drvs && b in trunk ==> (b in c.drvs <==> Connected(needs, trunk, a, b)))
    && c.kinds == KindsTouching(needs, c.drvs)
  }

  ghost predicate PairwiseDisjoint(comps: seq<Component>)
  {
    forall i, j :: 0 <= i < j < |comps| ==> comps[i].drvs !! comps[j].drvs
  }

  ghost predicate Covers(comps: seq<Component>, trunk: set<Drv>)
  {
    forall d :: d in trunk <==> exists i :: 0 <= i < |comps| && d in comps[i].drvs
  }

  ghost predicate AllClasses(needs: seq<Need>, trunk: set<Drv>, comps: seq<Component>)
  {
    forall c :: c in comps ==> IsClass(needs, trunk, c)
  }

  /** Sort key of `trunk_components`: larger first, ties by the sorted drv names. */
  predicate ComponentLe(x: Component, y: Component)
  {
    |x.drvs| > |y.drvs| || (|x.drvs| == |y.drvs| && NamesLe(SortedSet(x.drvs), SortedSet(y.drvs)))
  }

  /** What `trunk_components` returns: the classes of `Connected`, in key order. */
  ghost predicate IsComponents(needs: seq<Need>, trunk: set<Drv>, comps: seq<Component>)
  {
    && AllClasses(needs, trunk, comps)
    && PairwiseDisjoint(comps)
    && Covers(comps, trunk)
    && Sorted(comps, ComponentLe)
  }

  /** Components come largest first; of two that are equally large, first the one that holds the first drv name. */
  lemma InKeyOrder(needs: seq<Need>, trunk: set<Drv>, comps: seq<Component>, i: nat, j: nat)
    requires IsComponents(needs, trunk, comps) && i < j < |comps|
    ensures |comps[i].drvs| >= |comps[j].drvs|
    ensures |comps[i].drvs| == |comps[j].drvs| ==> exists d :: d in comps[i].drvs && forall e :: e in comps[j].drvs ==> d != e && StrLe(d, e)
  {
    var x, y := comps[i], comps[j];
    assert ComponentLe(x, y) && x in comps && y in comps;
    if |x.drvs| == |y.drvs| {
      FirstName(SortedSet(x.drvs), SortedSet(y.drvs), x.drvs, y.drvs);
    }
  }

  lemma FirstName(a: seq<Drv>, b: seq<Drv>, x: set<Drv>, y: set<Drv>)
    requires a != [] && b != [] && Sorted(b, StrLe) && NamesLe(a, b) && x !! y
    requires (forall d :: d in a <==> d in x) && forall d :: d in b <==> d in y
    ensures exists d :: d in x && forall e :: e in y ==> d != e && StrLe(d, e)
  {
    StrTotalOrder();
    assert a[0] in x && b[0] in y && StrLe(a[0], b[0]);
    forall e | e in y
      ensures a[0] != e && StrLe(a[0], e)
    {
      var k :| 0 <= k < |b| && b[k] == e;
      assert StrLe(b[0], b[k]);
    }
  }

  lemma ComponentOrder()
    ensures TotalPreorder(ComponentLe)
    ensures forall x, y :: ComponentLe(x, y) && ComponentLe(y, x) ==> x.drvs == y.drvs
  {
    NamesTotalOrder();
    forall x, y | ComponentLe(x, y) && ComponentLe(y, x)
      ensures x.drvs == y.drvs
    {
      assert SortedSet(x.drvs) == SortedSet(y.drvs);
      forall d
        ensures d in x.drvs <==> d in y.drvs
      {
        assert d in x.drvs <==> d in SortedSet(x.drvs);
      }
    }
  }

  /** Two classes that share a drv are the same component. */
  lemma ClassesMeet(needs: seq<Need>, trunk: set<Drv>, c: Component, d: Component, a: Drv)
    requires IsClass(needs, trunk, c) && IsClass(needs, trunk, d) && a in c.drvs && a in d.drvs
    ensures c == d
  {
    forall b | b in c.drvs || b in d.drvs
      ensures b in c.drvs && b in d.drvs
    {
      assert b in trunk;
    }
    assert c.drvs == d.drvs;
  }

  lemma SameMember(needs: seq<Need>, trunk: set<Drv>, y: seq<Component>, c: Component)
    requires AllClasses(needs, trunk, y) && Covers(y, trunk) && IsClass(needs, trunk, c)
    ensures c in y
  {
    var a :| a in c.drvs;
    var i :| 0 <= i < |y| && a in y[i].drvs;
    ClassesMeet(needs, trunk, c, y[i], a);
  }

  lemma SameMembers(needs: seq<Need>, trunk: set<Drv>, x: seq<Component>, y: seq<Component>)
    requires AllClasses(needs, trunk, x) && PairwiseDisjoint(x) && Covers(x, trunk)
    requires AllClasses(needs, trunk, y) && PairwiseDisjoint(y) && Covers(y, trunk)
    ensures multiset(x) == multiset(y)
  {
    ClassesDistinct(needs, trunk, x);
    ClassesDistinct(needs, trunk, y);
    forall c
      ensures c in x <==> c in y
    {
      if c in x { SameMember(needs, trunk, y, c); }
      if c in y { SameMember(needs, trunk, x, c); }
    }
    DistinctSameMultiset(x, y);
  }

  lemma TiesAreEqual(needs: seq<Need>, trunk: set<Drv>, x: seq<Component>, c: Component, d: Component)
    requires AllClasses(needs, trunk, x) && c in x && d in x
    requires ComponentLe(c, d) && ComponentLe(d, c)
    ensures c == d
  {
    ComponentOrder();
    var a :| a in c.drvs;
    ClassesMeet(needs, trunk, c, d, a);
  }

  /** The components do not depend on the order in which sets and dictionaries were walked. */
  lemma ComponentsUnique(needs: seq<Need>, trunk: set<Drv>, x: seq<Component>, y: seq<Component>)
    requires IsComponents(needs, trunk, x) && IsComponents(needs, trunk, y)
    ensures x == y
  {
    SameMembers(needs, trunk, x, y);
    forall c, d | c in x && d in x && ComponentLe(c, d) && ComponentLe(d, c)
      ensures c == d
    {
      TiesAreEqual(needs, trunk, x, c, d);
    }
    SortedUnique(x, y, ComponentLe);
  }

  lemma ClassesDistinct(needs: seq<Need>, trunk: set<Drv>, x: seq<Component>)
    requires AllClasses(needs, trunk, x) && PairwiseDisjoint(x)
    ensures Distinct(x)
  {
    forall i, j | 0 <= i < j < |x|
      ensures x[i] != x[j]
    {
      assert x[i] in x && IsClass(needs, trunk, x[i]);
      var d :| d in x[i].drvs;
      assert d !in x[j].drvs;
    }
  }

  // ----- dependencies -----

  /** `neededBuilds` is closed under uncached dependency. */
  ghost predicate ClosedUnder(deps: Drv -> set<Drv>, s: set<Drv>)
  {
    forall d :: d in s ==> deps(d) <= s
  }

  ghost predicate NeedsClosed(deps: Drv -> set<Drv>, needs: seq<Need>)
  {
    forall i :: 0 <= i < |needs| ==> ClosedUnder(deps, needs[i].drvs)
  }

  /** Dependencies of trunk drvs are trunk drvs. */
  lemma TrunkClosed(deps: Drv -> set<Drv>, needs: seq<Need>, trunk: set<Drv>)
    requires NeedsClosed(deps, needs) && IsTrunk(needs, trunk)
    ensures ClosedUnder(deps, trunk)
  {
    forall d | d in trunk
      ensures deps(d) <= trunk
    {
      var i, j :| 0 <= i < j < |needs| && d in needs[i].drvs && d in needs[j].drvs;
      assert ClosedUnder(deps, needs[i].drvs) && ClosedUnder(deps, needs[j].drvs);
      forall e | e in deps(d)
        ensures e in trunk
      {
        assert e in needs[i].drvs && e in needs[j].drvs;
        assert Shared(needs, e);
      }
    }
  }

  /** No component needs a drv of another one. */
  lemma ComponentClosed(deps: Drv -> set<Drv>, needs: seq<Need>, trunk: set<Drv>, c: Component)
    requires NeedsClosed(deps, needs) && IsTrunk(needs, trunk) && IsClass(needs, trunk, c)
    ensures ClosedUnder(deps, c.drvs)
  {
    TrunkClosed(deps, needs, trunk);
    forall d, e | d in c.drvs && e in deps(d)
      ensures e in c.drvs
    {
      assert deps(d) <= trunk;
      var i, j :| 0 <= i < j < |needs| && d in needs[i].drvs && d in needs[j].drvs;
      assert ClosedUnder(deps, needs[i].drvs);
      assert CoOccur(needs, d, e);
      ConnectedStep(needs, trunk, d, e);
    }
  }
}

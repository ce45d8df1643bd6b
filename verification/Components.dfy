/** `trunk_components`: a path-compressing union-find over the clusters' shared drvs. */
module Components {
  import opened Ordering
  import opened Trunk

  type Links = map<Drv, Drv>

  /** `x` climbs to `root[x]` along parents of growing rank. */
  ghost predicate NodeOk(parent: Links, root: Links, rank: map<Drv, nat>, x: Drv)
  {
    && x in parent && x in root && x in rank
    && parent[x] in parent && parent[x] in root && parent[x] in rank
    && root[x] in parent && root[x] in root && root[x] in rank
    && root[parent[x]] == root[x] && root[root[x]] == root[x]
    && (parent[x] == x <==> root[x] == x)
    && (parent[x] != x ==> rank[x] < rank[parent[x]] <= rank[root[x]])
  }

  ghost predicate Forest(parent: Links, root: Links, rank: map<Drv, nat>)
  {
    && parent.Keys == root.Keys == rank.Keys
    && forall x {:trigger NodeOk(parent, root, rank, x)} :: x in parent ==> NodeOk(parent, root, rank, x)
  }

  lemma CompressKeepsForest(parent: Links, root: Links, rank: map<Drv, nat>, x: Drv)
    requires Forest(parent, root, rank) && x in parent && root[x] != x
    ensures root[x] in parent && Forest(parent[x := root[x]], root, rank)
  {
    assert NodeOk(parent, root, rank, x);
    assert NodeOk(parent, root, rank, root[x]);
    var parent' := parent[x := root[x]];
    forall y | y in parent'
      ensures NodeOk(parent', root, rank, y)
    {
      assert NodeOk(parent, root, rank, y);
      if y != x { assert NodeOk(parent, root, rank, parent[y]); }
    }
  }

  ghost function Relabel(root: Links, from: Drv, to: Drv): (root': Links)
    ensures root'.Keys == root.Keys
    ensures forall x :: x in root ==> root'[x] == if root[x] == from then to else root[x]
  {
    map x | x in root :: if root[x] == from then to else root[x]
  }

  /** The ranks after the root `ra` is hung under the root `rb`. */
  ghost function Raise(rank: map<Drv, nat>, ra: Drv, rb: Drv): map<Drv, nat>
    requires ra in rank && rb in rank
  {
    if ra == rb then rank else rank[rb := rank[ra] + rank[rb] + 1]
  }

  lemma LinkNode(parent: Links, root: Links, rank: map<Drv, nat>, ra: Drv, rb: Drv, y: Drv)
    requires Forest(parent, root, rank) && ra in parent && rb in parent && y in parent
    requires root[ra] == ra && root[rb] == rb && ra != rb
    ensures NodeOk(parent[ra := rb], Relabel(root, ra, rb), Raise(rank, ra, rb), y)
  {
    assert NodeOk(parent, root, rank, ra) && NodeOk(parent, root, rank, rb);
    assert NodeOk(parent, root, rank, y);
    assert NodeOk(parent, root, rank, parent[y]);
  }

  lemma LinkKeys(parent: Links, root: Links, rank: map<Drv, nat>, ra: Drv, rb: Drv)
    requires parent.Keys == root.Keys == rank.Keys && ra in parent && rb in parent
    ensures parent[ra := rb].Keys == Relabel(root, ra, rb).Keys == Raise(rank, ra, rb).Keys == parent.Keys
  {
  }

  lemma LinkSame(parent: Links, root: Links, rank: map<Drv, nat>, ra: Drv)
    requires Forest(parent, root, rank) && ra in parent && root[ra] == ra
    ensures parent[ra := ra] == parent && Relabel(root, ra, ra) == root
  {
    assert NodeOk(parent, root, rank, ra);
  }

  lemma LinkKeepsForest(parent: Links, root: Links, rank: map<Drv, nat>, ra: Drv, rb: Drv)
    requires Forest(parent, root, rank) && ra in parent && rb in parent && root[ra] == ra && root[rb] == rb
    ensures Forest(parent[ra := rb], Relabel(root, ra, rb), Raise(rank, ra, rb)) && parent[ra := rb].Keys == parent.Keys
  {
    LinkKeys(parent, root, rank, ra, rb);
    if ra == rb {
      LinkSame(parent, root, rank, ra);
    } else {
      var parent', root', rank' := parent[ra := rb], Relabel(root, ra, rb), Raise(rank, ra, rb);
      forall y | y in parent'
        ensures NodeOk(parent', root', rank', y)
      {
        LinkNode(parent, root, rank, ra, rb, y);
      }
    }
  }

  /** The `parent` dictionary.  The ghost fields name each drv's root and give every non-root a
      rank below its parent's, which is why the walks to the root end. */
  class DisjointSets {
    var parent: Links
    ghost var root: Links
    ghost var rank: map<Drv, nat>

    ghost predicate Valid()
      reads this
    {
      Forest(parent, root, rank)
    }

    constructor (elements: set<Drv>)
      ensures Valid() && parent.Keys == elements
      ensures forall x :: x in elements ==> root[x] == x
    {
      parent := map x | x in elements :: x;
      root := map x | x in elements :: x;
      rank := map x | x in elements :: 0;
    }

    /** Returns the root of `start` and re-parents everything on the way to it. */
    method Find(start: Drv) returns (r: Drv)
      requires Valid() && start in parent
      modifies this`parent
      ensures Valid() && parent.Keys == old(parent.Keys)
      ensures r in parent && r == root[start] && root[r] == r && parent[r] == r
      ensures start != r ==> parent[start] == r
    {
      r := start;
      assert NodeOk(parent, root, rank, start);
      while parent[r] != r
        invariant r in parent && NodeOk(parent, root, rank, r) && root[r] == root[start]
        decreases rank[root[start]] - rank[r]
      {
        assert NodeOk(parent, root, rank, parent[r]);
        r := parent[r];
      }
      var x := start;
      while parent[x] != r
        invariant Valid() && parent.Keys == old(parent.Keys)
        invariant x in parent && NodeOk(parent, root, rank, x) && root[x] == r
        invariant r in parent && parent[r] == r
        invariant x != start && start != r ==> parent[start] == r
        decreases rank[r] - rank[x]
      {
        var up := parent[x];
        assert NodeOk(parent, root, rank, up);
        CompressKeepsForest(parent, root, rank, x);
        parent := parent[x := r];
        x := up;
        assert NodeOk(parent, root, rank, x);
      }
    }

    /** Hangs the root of `a` under the root of `b`. */
    method Union(a: Drv, b: Drv)
      requires Valid() && a in parent && b in parent
      modifies this
      ensures Valid() && parent.Keys == old(parent.Keys)
      ensures root == Relabel(old(root), old(root)[a], old(root)[b])
    {
      var rb := Find(b);
      var ra := Find(a);
      LinkKeepsForest(parent, root, rank, ra, rb);
      parent := parent[ra := rb];
      rank := Raise(rank, ra, rb);
      root := Relabel(root, ra, rb);
    }
  }

  ghost predicate RootConnected(needs: seq<Need>, trunk: set<Drv>, root: Links, x: Drv)
  {
    x in root && x in trunk && root[x] in trunk && Connected(needs, trunk, x, root[x])
  }

  /** Partition built so far: drvs with one root are connected. */
  ghost predicate RootsConnected(needs: seq<Need>, trunk: set<Drv>, root: Links)
  {
    forall x {:trigger RootConnected(needs, trunk, root, x)} :: x in root ==> RootConnected(needs, trunk, root, x)
  }

  lemma UnionStaysConnected(needs: seq<Need>, trunk: set<Drv>, root: Links, a: Drv, b: Drv)
    requires RootsConnected(needs, trunk, root) && a in root && b in root && CoOccur(needs, a, b)
    ensures RootsConnected(needs, trunk, Relabel(root, root[a], root[b]))
  {
    var root' := Relabel(root, root[a], root[b]);
    assert RootConnected(needs, trunk, root, a) && RootConnected(needs, trunk, root, b);
    forall x | x in root'
      ensures RootConnected(needs, trunk, root', x)
    {
      assert RootConnected(needs, trunk, root, x);
      if root[x] == root[a] {
        ConnectedSym(needs, trunk, a, root[a]);
        ConnectedTrans(needs, trunk, x, root[a], a);
        ConnectedStep(needs, trunk, a, b);
        ConnectedTrans(needs, trunk, x, a, b);
        ConnectedTrans(needs, trunk, x, b, root[b]);
      }
    }
  }

  ghost predicate OneRoot(root: Links, s: set<Drv>)
  {
    forall x, y :: x in s && y in s && x in root && y in root ==> root[x] == root[y]
  }

  /** The first `n` clusters have been merged. */
  ghost predicate Merged(needs: seq<Need>, n: nat, root: Links)
    requires n <= |needs|
  {
    forall i :: 0 <= i < n ==> OneRoot(root, needs[i].drvs)
  }

  lemma {:induction false} ChainOneRoot(needs: seq<Need>, trunk: set<Drv>, root: Links, p: seq<Drv>)
    requires Merged(needs, |needs|, root) && trunk <= root.Keys && Chain(needs, trunk, p)
    ensures root[p[0]] == root[p[|p| - 1]]
  {
    if |p| > 1 {
      assert CoOccur(needs, p[0], p[0 + 1]);
      var i :| 0 <= i < |needs| && p[0] in needs[i].drvs && p[1] in needs[i].drvs;
      assert OneRoot(root, needs[i].drvs);
      forall j | 0 <= j < |p[1..]| - 1
        ensures CoOccur(needs, p[1..][j], p[1..][j + 1])
      {
        assert CoOccur(needs, p[j + 1], p[j + 1 + 1]);
      }
      ChainOneRoot(needs, trunk, root, p[1..]);
    }
  }

  /** Once every cluster is merged, roots tell exactly which drvs are connected. */
  lemma RootsAreClasses(needs: seq<Need>, trunk: set<Drv>, root: Links, a: Drv, b: Drv)
    requires RootsConnected(needs, trunk, root) && Merged(needs, |needs|, root) && root.Keys == trunk
    requires a in trunk && b in trunk
    ensures root[a] == root[b] <==> Connected(needs, trunk, a, b)
  {
    assert RootConnected(needs, trunk, root, a) && RootConnected(needs, trunk, root, b);
    if root[a] == root[b] {
      ConnectedSym(needs, trunk, b, root[b]);
      ConnectedTrans(needs, trunk, a, root[a], b);
    }
    if Connected(needs, trunk, a, b) {
      var p :| Joins(needs, trunk, p, a, b);
      ChainOneRoot(needs, trunk, root, p);
    }
  }

  /** A merged cluster of kind `k` has a trunk drv in the class of `r`. */
  ghost predicate Credited(needs: seq<Need>, n: nat, root: Links, r: Drv, k: Kind)
  {
    exists i, d :: 0 <= i < n <= |needs| && needs[i].kind == k && d in needs[i].drvs && SameRoot(root, d, r)
  }

  ghost predicate SameRoot(root: Links, x: Drv, y: Drv)
  {
    x in root && y in root && root[x] == root[y]
  }

  /** Kind `k` is recorded somewhere in the class of `d`. */
  ghost predicate RecordedFor(root: Links, touching: map<Drv, set<Kind>>, d: Drv, k: Kind)
  {
    exists r :: r in touching && k in touching[r] && SameRoot(root, r, d)
  }

  /** Kinds are recorded only where a merged cluster earns them, and for every merged cluster. */
  ghost predicate KindsRecorded(needs: seq<Need>, n: nat, root: Links, touching: map<Drv, set<Kind>>)
    requires n <= |needs|
  {
    && touching.Keys <= root.Keys
    && (forall r, k {:trigger Credited(needs, n, root, r, k)} ::
          r in touching && k in touching[r] ==> Credited(needs, n, root, r, k))
    && (forall i, d {:trigger RecordedFor(root, touching, d, needs[i].kind)} ::
          0 <= i < n && d in needs[i].drvs && d in root ==> RecordedFor(root, touching, d, needs[i].kind))
  }

  /** The classes of `root'` are unions of classes of `root`. */
  ghost predicate Coarsens(root: Links, root': Links)
  {
    && root.Keys == root'.Keys
    && forall x, y {:trigger SameRoot(root', x, y)} :: SameRoot(root, x, y) ==> SameRoot(root', x, y)
  }

  lemma UnionCoarsens(first: Links, root: Links, a: Drv, b: Drv)
    requires Coarsens(first, root) && a in root && b in root
    ensures Coarsens(first, Relabel(root, root[a], root[b]))
  {
    var root' := Relabel(root, root[a], root[b]);
    forall x, y | SameRoot(first, x, y)
      ensures SameRoot(root', x, y)
    {
      assert SameRoot(root, x, y);
    }
  }

  lemma CoarserStillMerged(needs: seq<Need>, n: nat, root: Links, root': Links)
    requires n <= |needs| && Merged(needs, n, root) && Coarsens(root, root')
    ensures Merged(needs, n, root')
  {
    forall i | 0 <= i < n
      ensures OneRoot(root', needs[i].drvs)
    {
      assert OneRoot(root, needs[i].drvs);
      forall x, y | x in needs[i].drvs && y in needs[i].drvs && x in root' && y in root'
        ensures root'[x] == root'[y]
      {
        assert SameRoot(root', x, y);
      }
    }
  }

  lemma CoarserStillRecorded(needs: seq<Need>, n: nat, root: Links, root': Links, touching: map<Drv, set<Kind>>)
    requires n <= |needs| && KindsRecorded(needs, n, root, touching) && Coarsens(root, root')
    ensures KindsRecorded(needs, n, root', touching)
  {
    forall r, k | r in touching && k in touching[r]
      ensures Credited(needs, n, root', r, k)
    {
      assert Credited(needs, n, root, r, k);
      var i, d :| 0 <= i < n && needs[i].kind == k && d in needs[i].drvs && SameRoot(root, d, r);
      assert SameRoot(root', d, r);
    }
    forall i, d | 0 <= i < n && d in needs[i].drvs && d in root'
      ensures RecordedFor(root', touching, d, needs[i].kind)
    {
      assert RecordedFor(root, touching, d, needs[i].kind);
      var r :| r in touching && needs[i].kind in touching[r] && SameRoot(root, r, d);
      assert SameRoot(root', r, d);
    }
  }

  function Record(touching: map<Drv, set<Kind>>, r: Drv, k: Kind): map<Drv, set<Kind>>
  {
    touching[r := (if r in touching then touching[r] else {}) + {k}]
  }

  /** Recording a cluster under one of its own drvs' root. */
  lemma RecordKind(needs: seq<Need>, n: nat, root: Links, touching: map<Drv, set<Kind>>, first: Drv, r: Drv)
    requires n < |needs| && KindsRecorded(needs, n, root, touching) && OneRoot(root, needs[n].drvs)
    requires first in needs[n].drvs && SameRoot(root, first, r)
    ensures KindsRecorded(needs, n + 1, root, Record(touching, r, needs[n].kind))
  {
    var touching' := Record(touching, r, needs[n].kind);
    forall q, k | q in touching' && k in touching'[q]
      ensures Credited(needs, n + 1, root, q, k)
    {
      if q in touching && k in touching[q] {
        CreditedLater(needs, n, root, q, k);
      } else {
        assert needs[n].kind == k && SameRoot(root, first, q);
      }
    }
    forall i, d | 0 <= i < n + 1 && d in needs[i].drvs && d in root
      ensures RecordedFor(root, touching', d, needs[i].kind)
    {
      if i < n {
        assert RecordedFor(root, touching, d, needs[i].kind);
        var q :| q in touching && needs[i].kind in touching[q] && SameRoot(root, q, d);
        assert q in touching' && needs[i].kind in touching'[q];
      } else {
        assert r in touching' && needs[i].kind in touching'[r] && SameRoot(root, r, d);
      }
    }
  }

  lemma CreditedLater(needs: seq<Need>, n: nat, root: Links, r: Drv, k: Kind)
    requires n < |needs| && Credited(needs, n, root, r, k)
    ensures Credited(needs, n + 1, root, r, k)
  {
    var i, d :| 0 <= i < n && needs[i].kind == k && d in needs[i].drvs && SameRoot(root, d, r);
    assert i < n + 1;
  }

  lemma SkipUntouched(needs: seq<Need>, n: nat, root: Links, touching: map<Drv, set<Kind>>)
    requires n < |needs| && KindsRecorded(needs, n, root, touching) && Merged(needs, n, root)
    requires forall d :: d in needs[n].drvs ==> d !in root
    ensures KindsRecorded(needs, n + 1, root, touching) && Merged(needs, n + 1, root)
  {
    forall r, k | r in touching && k in touching[r]
      ensures Credited(needs, n + 1, root, r, k)
    {
      CreditedLater(needs, n, root, r, k);
    }
    assert OneRoot(root, needs[n].drvs);
  }

  /** Unites the shared drvs of one cluster, in any order. */
  method MergeCluster(uf: DisjointSets, ghost needs: seq<Need>, ghost trunk: set<Drv>, ghost n: nat, shared: set<Drv>)
    returns (first: Drv)
    requires uf.Valid() && uf.parent.Keys == trunk && n < |needs|
    requires shared == needs[n].drvs * trunk && shared != {}
    requires RootsConnected(needs, trunk, uf.root)
    modifies uf
    ensures uf.Valid() && uf.parent.Keys == trunk
    ensures RootsConnected(needs, trunk, uf.root)
    ensures Coarsens(old(uf.root), uf.root)
    ensures first in shared && OneRoot(uf.root, needs[n].drvs)
  {
    first :| first in shared;
    var todo := shared - {first};
    while todo != {}
      invariant uf.Valid() && uf.parent.Keys == trunk && todo <= shared - {first}
      invariant RootsConnected(needs, trunk, uf.root)
      invariant Coarsens(old(uf.root), uf.root)
      invariant forall d :: d in shared - todo ==> uf.root[d] == uf.root[first]
      decreases todo
    {
      var drv :| drv in todo;
      assert CoOccur(needs, drv, first);
      UnionStaysConnected(needs, trunk, uf.root, drv, first);
      UnionCoarsens(old(uf.root), uf.root, drv, first);
      uf.Union(drv, first);
      todo := todo - {drv};
    }
  }

  /** The recorded kinds of one class, re-resolving every recorded root. */
  method ClassKinds(uf: DisjointSets, touching: map<Drv, set<Kind>>, some: Drv) returns (kinds: set<Kind>)
    requires uf.Valid() && some in uf.parent && touching.Keys <= uf.parent.Keys
    modifies uf`parent
    ensures uf.Valid() && uf.parent.Keys == old(uf.parent.Keys)
    ensures forall k :: k in kinds <==> RecordedFor(uf.root, touching, some, k)
  {
    kinds := {};
    var todo := touching.Keys;
    while todo != {}
      invariant uf.Valid() && uf.parent.Keys == old(uf.parent.Keys) && todo <= touching.Keys
      invariant forall k :: k in kinds ==> RecordedFor(uf.root, touching, some, k)
      invariant forall r, k :: r in touching && r !in todo && k in touching[r] && SameRoot(uf.root, r, some) ==> k in kinds
      decreases todo
    {
      var r :| r in todo;
      var found := uf.Find(r);
      var own := uf.Find(some);
      todo := todo - {r};
      if found == own {
        assert SameRoot(uf.root, r, some);
        kinds := kinds + touching[r];
      }
    }
  }

  /** `groups` files each drv outside `todo` under its root, and nothing else. */
  ghost predicate GroupedBy(root: Links, trunk: set<Drv>, todo: set<Drv>, groups: map<Drv, set<Drv>>)
  {
    && (forall d :: d in trunk && d !in todo && d in root ==> root[d] in groups && d in groups[root[d]])
    && (forall r, d :: r in groups && d in groups[r] ==> d in trunk && d in root && root[d] == r)
    && (forall r :: r in groups ==> groups[r] != {})
  }

  method GroupByRoot(uf: DisjointSets, trunk: set<Drv>) returns (groups: map<Drv, set<Drv>>)
    requires uf.Valid() && uf.parent.Keys == trunk
    modifies uf`parent
    ensures uf.Valid() && uf.parent.Keys == trunk
    ensures GroupedBy(uf.root, trunk, {}, groups)
  {
    groups := map[];
    var todo := trunk;
    while todo != {}
      invariant uf.Valid() && uf.parent.Keys == trunk && todo <= trunk
      invariant GroupedBy(uf.root, trunk, todo, groups)
      decreases todo
    {
      var drv :| drv in todo;
      var r := uf.Find(drv);
      GroupStep(uf.root, trunk, todo, groups, drv);
      groups := File(groups, r, drv);
      todo := todo - {drv};
    }
  }

  function File(groups: map<Drv, set<Drv>>, r: Drv, drv: Drv): map<Drv, set<Drv>>
  {
    groups[r := (if r in groups then groups[r] else {}) + {drv}]
  }

  lemma GroupStep(root: Links, trunk: set<Drv>, todo: set<Drv>, groups: map<Drv, set<Drv>>, drv: Drv)
    requires GroupedBy(root, trunk, todo, groups) && drv in trunk && drv in root
    ensures GroupedBy(root, trunk, todo - {drv}, File(groups, root[drv], drv))
  {
    var groups' := File(groups, root[drv], drv);
    forall r, d | r in groups' && d in groups'[r]
      ensures d in trunk && d in root && root[d] == r
    {
      assert d == drv || (r in groups && d in groups[r]);
    }
  }

  /** A class as the code assembles it is a class as defined. */
  lemma AssembledClass(needs: seq<Need>, trunk: set<Drv>, root: Links, touching: map<Drv, set<Kind>>, c: Component, r: Drv)
    requires RootsConnected(needs, trunk, root) && Merged(needs, |needs|, root) && root.Keys == trunk
    requires KindsRecorded(needs, |needs|, root, touching)
    requires c.drvs != {} && forall d :: d in c.drvs <==> d in trunk && root[d] == r
    requires forall d, k :: d in c.drvs ==> (k in c.kinds <==> RecordedFor(root, touching, d, k))
    ensures IsClass(needs, trunk, c)
  {
    forall a, b | a in c.drvs && b in trunk
      ensures b in c.drvs <==> Connected(needs, trunk, a, b)
    {
      RootsAreClasses(needs, trunk, root, a, b);
    }
    var some :| some in c.drvs;
    forall k
      ensures k in c.kinds <==> k in KindsTouching(needs, c.drvs)
    {
      if k in c.kinds {
        assert RecordedFor(root, touching, some, k);
        var q :| q in touching && k in touching[q] && SameRoot(root, q, some);
        assert Credited(needs, |needs|, root, q, k);
        var i, d :| 0 <= i < |needs| && needs[i].kind == k && d in needs[i].drvs && SameRoot(root, d, q);
        assert d in needs[i].drvs * c.drvs;
      }
      if k in KindsTouching(needs, c.drvs) {
        var i :| 0 <= i < |needs| && needs[i].drvs * c.drvs != {} && needs[i].kind == k;
        var d :| d in needs[i].drvs * c.drvs;
        assert RecordedFor(root, touching, d, needs[i].kind);
      }
    }
  }

  lemma RecordedForClass(root: Links, touching: map<Drv, set<Kind>>, d: Drv, e: Drv, k: Kind)
    requires SameRoot(root, d, e) && RecordedFor(root, touching, d, k)
    ensures RecordedFor(root, touching, e, k)
  {
    var r :| r in touching && k in touching[r] && SameRoot(root, r, d);
    assert SameRoot(root, r, e);
  }

  /** One turn of the cluster loop. */
  method MergeAndRecord(uf: DisjointSets, trunk: set<Drv>, needs: seq<Need>, n: nat, touching: map<Drv, set<Kind>>)
    returns (touching': map<Drv, set<Kind>>)
    requires n < |needs| && uf.Valid() && uf.parent.Keys == trunk
    requires RootsConnected(needs, trunk, uf.root) && Merged(needs, n, uf.root)
    requires KindsRecorded(needs, n, uf.root, touching)
    modifies uf
    ensures uf.Valid() && uf.parent.Keys == trunk
    ensures RootsConnected(needs, trunk, uf.root) && Merged(needs, n + 1, uf.root)
    ensures KindsRecorded(needs, n + 1, uf.root, touching')
  {
    var shared := needs[n].drvs * trunk;
    if shared == {} {
      assert forall d :: d in needs[n].drvs && d in trunk ==> d in shared;
      SkipUntouched(needs, n, uf.root, touching);
      touching' := touching;
    } else {
      ghost var before := uf.root;
      var first := MergeCluster(uf, needs, trunk, n, shared);
      CoarserStillMerged(needs, n, before, uf.root);
      CoarserStillRecorded(needs, n, before, uf.root, touching);
      var r := uf.Find(first);
      RecordKind(needs, n, uf.root, touching, first, r);
      touching' := Record(touching, r, needs[n].kind);
    }
  }

  /** The components of `trunk`, whatever order the sets are walked in. */
  method TrunkComponents(trunk: set<Drv>, needs: seq<Need>) returns (comps: seq<Component>)
    ensures IsComponents(needs, trunk, comps)
  {
    var uf := new DisjointSets(trunk);
    var touching: map<Drv, set<Kind>> := map[];
    forall x | x in trunk
      ensures Connected(needs, trunk, x, x)
    {
      ConnectedRefl(needs, trunk, x);
    }
    for n := 0 to |needs|
      invariant uf.Valid() && uf.parent.Keys == trunk
      invariant RootsConnected(needs, trunk, uf.root) && Merged(needs, n, uf.root)
      invariant KindsRecorded(needs, n, uf.root, touching)
    {
      touching := MergeAndRecord(uf, trunk, needs, n, touching);
    }
    var unsorted := Assemble(uf, trunk, needs, touching);
    comps := SortComponents(needs, trunk, unsorted);
  }

  /** Every cluster has been merged into `root` and credited in `touching`. */
  ghost predicate AllMerged(needs: seq<Need>, trunk: set<Drv>, root: Links, touching: map<Drv, set<Kind>>)
  {
    && root.Keys == trunk
    && RootsConnected(needs, trunk, root) && Merged(needs, |needs|, root)
    && KindsRecorded(needs, |needs|, root, touching)
  }

  method MakeClass(uf: DisjointSets, trunk: set<Drv>, ghost needs: seq<Need>, touching: map<Drv, set<Kind>>,
                   groups: map<Drv, set<Drv>>, r: Drv)
    returns (c: Component)
    requires uf.Valid() && uf.parent.Keys == trunk && AllMerged(needs, trunk, uf.root, touching)
    requires GroupedBy(uf.root, trunk, {}, groups) && r in groups
    modifies uf`parent
    ensures uf.Valid() && uf.parent.Keys == trunk
    ensures IsClass(needs, trunk, c) && c.drvs == groups[r]
  {
    var some :| some in groups[r];
    var kinds := ClassKinds(uf, touching, some);
    c := Component(groups[r], kinds);
    forall d, k | d in c.drvs
      ensures k in c.kinds <==> RecordedFor(uf.root, touching, d, k)
    {
      if k in c.kinds { RecordedForClass(uf.root, touching, some, d, k); }
      if RecordedFor(uf.root, touching, d, k) { RecordedForClass(uf.root, touching, d, some, k); }
    }
    AssembledClass(needs, trunk, uf.root, touching, c, r);
  }

  method Assemble(uf: DisjointSets, trunk: set<Drv>, ghost needs: seq<Need>, touching: map<Drv, set<Kind>>)
    returns (comps: seq<Component>)
    requires uf.Valid() && uf.parent.Keys == trunk && AllMerged(needs, trunk, uf.root, touching)
    modifies uf`parent
    ensures AllClasses(needs, trunk, comps) && PairwiseDisjoint(comps) && Covers(comps, trunk)
  {
    var groups := GroupByRoot(uf, trunk);
    comps := [];
    ghost var roots: seq<Drv> := [];
    var todo := groups.Keys;
    while todo != {}
      invariant uf.Valid() && uf.parent.Keys == trunk && todo <= groups.Keys
      invariant AllClasses(needs, trunk, comps)
      invariant Listed(groups, todo, roots, comps)
      decreases todo
    {
      var r :| r in todo;
      var c := MakeClass(uf, trunk, needs, touching, groups, r);
      ListedSnoc(groups, todo, roots, comps, r, c);
      comps := comps + [c];
      roots := roots + [r];
      todo := todo - {r};
    }
    ListedAll(uf.root, trunk, groups, roots, comps);
  }

  /** `comps` holds the group of each root outside `todo`, once. */
  ghost predicate Listed(groups: map<Drv, set<Drv>>, todo: set<Drv>, roots: seq<Drv>, comps: seq<Component>)
  {
    && |roots| == |comps| && Distinct(roots)
    && (forall i :: 0 <= i < |comps| ==> roots[i] in groups && roots[i] !in todo && comps[i].drvs == groups[roots[i]])
    && (forall r :: r in groups && r !in todo ==> r in roots)
  }

  lemma ListedSnoc(groups: map<Drv, set<Drv>>, todo: set<Drv>, roots: seq<Drv>, comps: seq<Component>, r: Drv, c: Component)
    requires Listed(groups, todo, roots, comps) && r in todo && r in groups && c.drvs == groups[r]
    ensures Listed(groups, todo - {r}, roots + [r], comps + [c])
  {
    assert (roots + [r])[|roots|] == r;
    forall q | q in groups && q !in todo - {r}
      ensures q in roots + [r]
    {
      assert q == r || q in roots;
    }
  }

  lemma ListedApart(root: Links, trunk: set<Drv>, groups: map<Drv, set<Drv>>, roots: seq<Drv>, comps: seq<Component>, i: nat, j: nat)
    requires root.Keys == trunk && GroupedBy(root, trunk, {}, groups) && Listed(groups, {}, roots, comps) && i < j < |comps|
    ensures comps[i].drvs !! comps[j].drvs
  {
    forall d | d in comps[i].drvs
      ensures d !in comps[j].drvs
    {
      assert root[d] == roots[i];
    }
  }

  lemma ListedAll(root: Links, trunk: set<Drv>, groups: map<Drv, set<Drv>>, roots: seq<Drv>, comps: seq<Component>)
    requires root.Keys == trunk && GroupedBy(root, trunk, {}, groups) && Listed(groups, {}, roots, comps)
    ensures PairwiseDisjoint(comps) && Covers(comps, trunk)
  {
    forall i, j | 0 <= i < j < |comps|
      ensures comps[i].drvs !! comps[j].drvs
    {
      ListedApart(root, trunk, groups, roots, comps, i, j);
    }
    ListedCovers(root, trunk, groups, roots, comps);
  }

  lemma ListedHas(root: Links, trunk: set<Drv>, groups: map<Drv, set<Drv>>, roots: seq<Drv>, comps: seq<Component>, d: Drv)
    returns (i: nat)
    requires root.Keys == trunk && GroupedBy(root, trunk, {}, groups) && Listed(groups, {}, roots, comps) && d in trunk
    ensures i < |comps| && d in comps[i].drvs
  {
    assert root[d] in groups && root[d] in roots;
    i :| 0 <= i < |roots| && roots[i] == root[d];
  }

  lemma ListedWithin(root: Links, trunk: set<Drv>, groups: map<Drv, set<Drv>>, roots: seq<Drv>, comps: seq<Component>, i: nat)
    requires GroupedBy(root, trunk, {}, groups) && Listed(groups, {}, roots, comps) && i < |comps|
    ensures comps[i].drvs <= trunk
  {
  }

  lemma ListedCovers(root: Links, trunk: set<Drv>, groups: map<Drv, set<Drv>>, roots: seq<Drv>, comps: seq<Component>)
    requires root.Keys == trunk && GroupedBy(root, trunk, {}, groups) && Listed(groups, {}, roots, comps)
    ensures Covers(comps, trunk)
  {
    forall d | d in trunk
      ensures exists i :: 0 <= i < |comps| && d in comps[i].drvs
    {
      var i := ListedHas(root, trunk, groups, roots, comps, d);
    }
    forall i | 0 <= i < |comps|
      ensures comps[i].drvs <= trunk
    {
      ListedWithin(root, trunk, groups, roots, comps, i);
    }
  }

  method SortComponents(ghost needs: seq<Need>, ghost trunk: set<Drv>, unsorted: seq<Component>)
    returns (comps: seq<Component>)
    requires AllClasses(needs, trunk, unsorted) && PairwiseDisjoint(unsorted) && Covers(unsorted, trunk)
    ensures IsComponents(needs, trunk, comps)
  {
    comps := Sort(unsorted, ComponentLe);
    ComponentOrder();
    SortSorts(unsorted, ComponentLe);
    SortKeepsPartition(needs, trunk, unsorted, comps);
  }

  lemma SortKeepsPartition(needs: seq<Need>, trunk: set<Drv>, x: seq<Component>, y: seq<Component>)
    requires AllClasses(needs, trunk, x) && PairwiseDisjoint(x) && Covers(x, trunk)
    requires multiset(x) == multiset(y)
    ensures AllClasses(needs, trunk, y) && PairwiseDisjoint(y) && Covers(y, trunk)
  {
    assert forall c :: c in y ==> c in multiset(x);
    assert forall c :: c in x ==> c in multiset(y);
    ClassesDistinct(needs, trunk, x);
    DistinctByMultiset(y, x);
    forall i, j | 0 <= i < j < |y|
      ensures y[i].drvs !! y[j].drvs
    {
      if d :| d in y[i].drvs && d in y[j].drvs {
        assert y[i] in y && y[j] in y;
        ClassesMeet(needs, trunk, y[i], y[j], d);
        assert false;
      }
    }
    forall d | d in trunk
      ensures exists i :: 0 <= i < |y| && d in y[i].drvs
    {
      var i :| 0 <= i < |x| && d in x[i].drvs;
      assert x[i] in multiset(y);
      var j :| 0 <= j < |y| && y[j] == x[i];
    }
    forall j, d | 0 <= j < |y| && d in y[j].drvs
      ensures d in trunk
    {
      assert y[j] in y;
      assert IsClass(needs, trunk, y[j]);
    }
  }
}

/** The model corpus with its two memo tables: which modules each module reaches, and which state variables each
    name reads. A fatal ambiguity ends the run, so it surfaces as the absence of an answer. */
module Corpora {

  import opened Options
  import opened ModelNames
  import opened ReadSets
  import opened SetSizes

  // ----- the import worklist -----

  ghost predicate ReachTable(c: Models, table: map<Mod, set<Mod>>)
  {
    forall m :: m in table ==> ReachSet(c, m, table[m])
  }

  ghost predicate ReachSet(c: Models, from: Mod, s: set<Mod>)
  {
    forall m :: m in s <==> Reaches(c, from, m)
  }

  lemma ReachesSelf(c: Models, m: Mod)
    ensures Reaches(c, m, m)
  {
    assert IsRoute(c, m, Here) && Last(m, Here) == m;
  }

  lemma ReachesOn(c: Models, from: Mod, m: Mod, next: Mod)
    requires Reaches(c, from, m) && m in c.imports && next in c.imports[m]
    ensures Reaches(c, from, next)
  {
    var r :| IsRoute(c, from, r) && Last(from, r) == m;
    var s := Onward(r, next);
    assert IsRoute(c, from, s) && Last(from, s) == next;
  }

  ghost predicate Pending(c: Models, m: Mod, seen: set<Mod>, stack: seq<Mod>)
  {
    m in c.imports ==> forall n :: n in c.imports[m] ==> n in seen || n in stack
  }

  ghost predicate Explored(c: Models, from: Mod, seen: set<Mod>, stack: seq<Mod>)
  {
    && (forall m :: m in seen || m in stack ==> Reaches(c, from, m))
    && (from in seen || from in stack)
    && (forall m :: m in seen ==> Pending(c, m, seen, stack))
  }

  lemma {:induction false} RouteSeen(c: Models, from: Mod, seen: set<Mod>, r: Route)
    requires Explored(c, from, seen, []) && IsRoute(c, from, r)
    ensures Last(from, r) in seen
  {
    if r.Onward? {
      RouteSeen(c, from, seen, r.before);
      assert Pending(c, Last(from, r.before), seen, []);
    }
  }

  lemma ExploredIsReach(c: Models, from: Mod, seen: set<Mod>)
    requires Explored(c, from, seen, [])
    ensures ReachSet(c, from, seen)
  {
    forall m | Reaches(c, from, m)
      ensures m in seen
    {
      var r :| IsRoute(c, from, r) && Last(from, r) == m;
      RouteSeen(c, from, seen, r);
    }
  }

  /** Popping a module that is seen or unknown. */
  lemma ExploredSkip(c: Models, from: Mod, seen: set<Mod>, rest: seq<Mod>, m: Mod)
    requires Explored(c, from, seen, rest + [m]) && (m in seen || m !in c.imports)
    ensures Explored(c, from, seen + {m}, rest)
  {
    assert m in rest + [m];
    forall x | x in seen + {m}
      ensures Pending(c, x, seen + {m}, rest)
    {
      assert x in seen ==> Pending(c, x, seen, rest + [m]);
    }
  }

  /** Popping a new module and pushing its unseen imports. */
  lemma ExploredPush(c: Models, from: Mod, seen: set<Mod>, rest: seq<Mod>, m: Mod, more: seq<Mod>)
    requires Explored(c, from, seen, rest + [m]) && m in c.imports
    requires forall x :: x in more <==> x in c.imports[m] - (seen + {m})
    ensures Explored(c, from, seen + {m}, rest + more)
  {
    assert m in rest + [m];
    forall x | x in seen + {m} || x in rest + more
      ensures Reaches(c, from, x)
    {
      if x in more {
        ReachesOn(c, from, m, x);
      } else if x in rest {
        assert x in rest + [m];
      }
    }
    forall x | x in seen + {m}
      ensures Pending(c, x, seen + {m}, rest + more)
    {
      assert x in seen ==> Pending(c, x, seen, rest + [m]);
    }
  }

  function Known(c: Models): set<Mod>
  {
    set k, m | k in c.imports && m in c.imports[k] :: m
  }

  /** A set listed in some order. */
  method Listed(s: set<Mod>) returns (r: seq<Mod>)
    ensures forall x :: x in r <==> x in s
  {
    r := [];
    var rest := s;
    while rest != {}
      invariant forall x :: x in s <==> x in r || x in rest
    {
      var x :| x in rest;
      rest := rest - {x};
      r := r + [x];
    }
  }

  method Explore(c: Models, from: Mod) returns (seen: set<Mod>)
    requires WellFormed(c)
    ensures ReachSet(c, from, seen)
  {
    seen := {};
    var stack := [from];
    ReachesSelf(c, from);
    ghost var universe := Known(c) + {from};
    while stack != []
      invariant Explored(c, from, seen, stack)
      invariant forall m :: m in stack ==> m in universe
      decreases |universe - seen|, |stack|
    {
      var m := stack[|stack| - 1];
      var rest := stack[..|stack| - 1];
      assert stack == rest + [m];
      assert m in universe;
      if m in seen || (m !in c.imports && m !in c.decls) {
        ExploredSkip(c, from, seen, rest, m);
        FewerUnseen(universe, seen, m);
        seen := seen + {m};
        stack := rest;
      } else {
        var more := Listed(c.imports[m] - (seen + {m}));
        ExploredPush(c, from, seen, rest, m, more);
        FewerUnseen(universe, seen, m);
        seen := seen + {m};
        stack := rest + more;
      }
    }
    ExploredIsReach(c, from, seen);
  }

  lemma FewerUnseen<T>(universe: set<T>, seen: set<T>, m: T)
    requires m in universe
    ensures |universe - (seen + {m})| <= |universe - seen|
    ensures m !in seen ==> |universe - (seen + {m})| < |universe - seen|
  {
    if m in seen {
      assert universe - (seen + {m}) == universe - seen;
    } else {
      assert universe - (seen + {m}) == (universe - seen) - {m};
    }
  }

  // ----- the universe of names -----

  function Mentioned(c: Models): set<Name>
  {
    set m, d, n | m in c.decls && d in c.decls[m] && c.decls[m][d].Def? && n in NamesIn(c.decls[m][d].expr) :: n
  }

  ghost predicate TargetsInside(c: Models, universe: set<Node>)
  {
    forall k, t :: k in universe && t in Targets(c, k) ==> t in universe
  }

  ghost function Universe(c: Models, key: Node): set<Node>
  {
    (set m, n | m in c.decls.Keys && n in Mentioned(c) :: (m, n)) + {key}
  }

  lemma UniverseClosed(c: Models, key: Node)
    ensures TargetsInside(c, Universe(c, key))
  {
    forall k, t | k in Universe(c, key) && t in Targets(c, k)
      ensures t in Universe(c, key)
    {
      LookupAtOwner(c, k.0, k.1);
      var r := At(c, k);
      assert c.decls[r.owner][k.1] == r.decl;
      assert t.1 in Mentioned(c);
    }
  }

  // ----- the corpus -----

  class Corpus {
    const models: Models
    var reachCache: map<Mod, set<Mod>>
    var readsetCache: Cache

    ghost predicate Valid()
      reads this
    {
      WellFormed(models) && ReachTable(models, reachCache) && Sound(models, readsetCache)
    }

    constructor (m: Models)
      requires WellFormed(m)
      ensures Valid() && models == m && readsetCache == map[] && reachCache == map[]
    {
      models := m;
      reachCache := map[];
      readsetCache := map[];
    }

    method ReachableModules(mod: Mod) returns (seen: set<Mod>)
      requires Valid()
      modifies this`reachCache
      ensures Valid() && ReachSet(models, mod, seen)
    {
      if mod in reachCache {
        return reachCache[mod];
      }
      seen := Explore(models, mod);
      reachCache := reachCache[mod := seen];
    }

    method VisibleDecl(mod: Mod, name: Name) returns (r: Resolution)
      requires Valid()
      modifies this`reachCache
      ensures Valid() && r == Lookup(models, mod, name)
    {
      if mod in models.decls && name in models.decls[mod] {
        return Found(mod, models.decls[mod][name]);
      }
      var reached := ReachableModules(mod);
      var owners := set m | m in reached && m != mod && m in models.decls && name in models.decls[m];
      assert owners == Owners(models, mod, name);
      if owners == {} {
        return Missing;
      }
      var m :| m in owners;
      if owners == {m} {
        return Found(m, models.decls[m][name]);
      }
      return Ambiguous(owners);
    }

    /** The names of one definition, in any order. */
    method JoinReads(key: Node, owner: Mod, refs: set<Name>, ghost before: Cache, ghost universe: set<Node>,
                     ghost rank: Node -> nat)
      returns (out: Option<set<Node>>)
      requires Valid() && Searched(models, rank, before, readsetCache, key, Targets(models, key), {})
      requires Targets(models, key) == Refs(owner, refs, key.1)
      requires key in universe && TargetsInside(models, universe)
      modifies this
      ensures Valid() && Extends(old(readsetCache), readsetCache)
      ensures out.Some? ==> Searched(models, rank, before, readsetCache, key, {}, out.value)
      ensures out.None? ==> !Clean(models, key)
      decreases |universe - readsetCache.Keys|, 1
    {
      var names := refs;
      var joined: set<Node> := {};
      ghost var start := readsetCache;
      while names != {}
        invariant Valid() && Extends(start, readsetCache)
        invariant Refs(owner, names, key.1) <= Targets(models, key)
        invariant Searched(models, rank, before, readsetCache, key, Refs(owner, names, key.1), joined)
        decreases |names|
      {
        var n :| n in names;
        RefsWithout(owner, names, key.1, n);
        if n != key.1 {
          ghost var mid := readsetCache;
          FewerLeft(universe, start, mid);
          var s := VarReadset(owner, n, universe, rank);
          if s.None? {
            UncleanOn(models, key, (owner, n));
            return None;
          }
          SearchStep(models, rank, before, mid, readsetCache, key, Refs(owner, names, key.1), (owner, n), s.value, joined);
          joined := joined + s.value;
        }
        names := names - {n};
      }
      assert Refs(owner, names, key.1) == {};
      return Some(joined);
    }

    /** The search for a defined name. */
    method SearchDef(key: Node, owner: Mod, expr: Expr, ghost before: Cache, ghost universe: set<Node>, ghost rank: Node -> nat)
      returns (r: Option<set<Node>>)
      requires Valid() && Sound(models, before) && key !in before && readsetCache == before[key := {}]
      requires At(models, key) == Found(owner, Def(expr)) && key in universe && TargetsInside(models, universe)
      modifies this
      ensures Valid() && Extends(before, readsetCache)
      ensures r.Some? ==> Finished(models, rank, before, readsetCache, key, r.value)
      ensures r.None? ==> !Clean(models, key)
      decreases |universe - readsetCache.Keys|, 2
    {
      SearchStart(models, rank, before, key);
      r := JoinReads(key, owner, NamesIn(expr), before, universe, rank);
      if r.Some? {
        SearchEnd(models, rank, before, readsetCache, key, r.value);
        readsetCache := readsetCache[key := r.value];
      }
    }

    /** The search for a name whose entry now holds the cycle guard. */
    method Search(mod: Mod, name: Name, ghost before: Cache, ghost universe: set<Node>, ghost rank: Node -> nat)
      returns (r: Option<set<Node>>)
      requires Valid() && Sound(models, before) && (mod, name) !in before && readsetCache == before[(mod, name) := {}]
      requires (mod, name) in universe && TargetsInside(models, universe)
      modifies this
      ensures Valid() && Extends(before, readsetCache)
      ensures r.Some? ==> Finished(models, rank, before, readsetCache, (mod, name), r.value)
      ensures r.None? ==> !Clean(models, (mod, name))
      decreases |universe - readsetCache.Keys|, 3
    {
      var key := (mod, name);
      var d := VisibleDecl(mod, name);
      if d.Ambiguous? {
        RefersSelf(models, key);
        return None;
      }
      if d.Found? && d.decl.Def? {
        r := SearchDef(key, d.owner, d.decl.expr, before, universe, rank);
        return;
      }
      var out := if d.Found? && d.decl.Var? then {(d.owner, name)} else {};
      StoreLeaf(key, out, before, rank);
      return Some(out);
    }

    /** A name with nothing to search: a variable, an undeclared name or some other declaration. */
    method StoreLeaf(key: Node, out: set<Node>, ghost before: Cache, ghost rank: Node -> nat)
      requires Valid() && Sound(models, before) && key !in before && readsetCache == before[key := {}]
      requires Targets(models, key) == {} && !At(models, key).Ambiguous? && out == OwnVars(models, key)
      modifies this`readsetCache
      ensures Valid() && Extends(before, readsetCache)
      ensures Finished(models, rank, before, readsetCache, key, out)
    {
      LeafFinished(models, rank, before, key);
      assert readsetCache[key := out] == before[key := out];
      readsetCache := readsetCache[key := out];
    }

    /** The state variables a name reads: never one that is not reached, whatever the cache holds. */
    method VarReadset(mod: Mod, name: Name, ghost universe: set<Node>, ghost rank: Node -> nat)
      returns (r: Option<set<Node>>)
      requires Valid() && (mod, name) in universe && TargetsInside(models, universe)
      modifies this
      ensures Valid() && Extends(old(readsetCache), readsetCache)
      ensures r.Some? ==> Finished(models, rank, old(readsetCache), readsetCache, (mod, name), r.value)
      ensures r.None? ==> !Clean(models, (mod, name))
      decreases |universe - readsetCache.Keys|, 0
    {
      var key := (mod, name);
      if key in readsetCache {
        HitFinished(models, rank, readsetCache, key);
        return Some(readsetCache[key]);
      }
      ghost var before := readsetCache;
      GuardSound(models, before, key);
      GuardShrinks(universe, before, key);
      readsetCache := readsetCache[key := {}];
      r := Search(mod, name, before, universe, rank);
    }

    /** One query from outside. The answer is what the cache lets a search find, and it is exact if and only if the
        cached names met on the way suffice. On a cache that is all exact the answer is exact, cyclic definitions or
        not, and it is missing exactly when an ambiguous name is reached; when definitions are acyclic the cache stays
        all exact. */
    method ReadSet(mod: Mod, name: Name) returns (r: Option<set<Node>>)
      requires Valid()
      modifies this
      ensures Valid() && Extends(old(readsetCache), readsetCache)
      ensures r.Some? ==> Within(models, (mod, name), r.value)
      ensures r.Some? ==> Outcome(models, old(readsetCache), readsetCache, (mod, name), r.value)
      ensures r.Some? ==> forall v :: v in r.value <==> Finds(models, old(readsetCache), (mod, name), v)
      ensures r.Some? ==> (Exact(models, (mod, name), r.value) <==> CacheSuffices(models, old(readsetCache), (mod, name)))
      ensures r.Some? ==> KeepsAround(models, old(readsetCache), readsetCache, (mod, name))
      ensures r.None? ==> !Clean(models, (mod, name))
      ensures AllExact(models, old(readsetCache)) ==> (r.None? <==> !Clean(models, (mod, name)))
      ensures AllExact(models, old(readsetCache)) && r.Some? ==> Exact(models, (mod, name), r.value)
      ensures AllExact(models, old(readsetCache)) && r.Some? ==> forall v :: v in r.value <==> Reads(models, (mod, name), v)
      ensures AllExact(models, old(readsetCache)) && r.Some? && Acyclic(models) ==> AllExact(models, readsetCache)
    {
      ghost var key := (mod, name);
      ghost var rank := if Acyclic(models) then RankOf(models) else (k: Node) => 0;
      UniverseClosed(models, key);
      r := VarReadset(mod, name, Universe(models, key), rank);
      if r.Some? {
        FinishedFromExact(models, rank, old(readsetCache), readsetCache, key, r.value);
        AnswerIsFound(models, old(readsetCache), readsetCache, key, r.value);
        ExactExactly(models, old(readsetCache), readsetCache, key, r.value);
        forall v
          ensures ReadsVar(models, key, v) <==> Reads(models, key, v)
        {
          ReadsExactly(models, key, v);
        }
      }
    }
  }

  ghost predicate Acyclic(c: Models)
  {
    exists rank :: Ranked(c, rank)
  }

  ghost function RankOf(c: Models): (rank: Node -> nat)
    requires Acyclic(c)
    ensures Ranked(c, rank)
  {
    var rank :| Ranked(c, rank);
    rank
  }

  lemma FinishedFromExact(c: Models, rank: Node -> nat, before: Cache, now: Cache, key: Node, out: set<Node>)
    requires Finished(c, rank, before, now, key, out)
    ensures Within(c, key, out)
    ensures AllExact(c, before) ==> Exact(c, key, out)
    ensures AllExact(c, before) && Ranked(c, rank) ==> AllExact(c, now)
  {
    assert Within(c, key, now[key]);
    if AllExact(c, before) {
      OutermostIsExact(c, before, now, key, out);
      if Ranked(c, rank) {
        forall k | k in now
          ensures Exact(c, k, now[k])
        {
          assert k in before ==> now[k] == before[k];
        }
      }
    }
  }

  lemma GuardShrinks(universe: set<Node>, m: Cache, key: Node)
    requires key in universe && key !in m
    ensures |universe - m[key := {}].Keys| < |universe - m.Keys|
  {
    FewerUnseen(universe, m.Keys, key);
    assert m[key := {}].Keys == m.Keys + {key};
  }

  lemma FewerLeft(universe: set<Node>, a: Cache, b: Cache)
    requires Extends(a, b)
    ensures |universe - b.Keys| <= |universe - a.Keys|
  {
    SubsetSize(universe - b.Keys, universe - a.Keys);
  }

  // ----- why acyclicity matters -----

  /** Two definitions that refer to each other; one of them also reads a variable. */
  function Looped(): Models
  {
    Models(map["m" := map["a" := Def(App("f", [NameRef("b"), NameRef("x")])), "b" := Def(NameRef("a")), "x" := Var]],
           map["m" := {}])
  }

  lemma LoopedNames()
    ensures var c := Looped();
            && Targets(c, ("m", "a")) == {("m", "f"), ("m", "b"), ("m", "x")} && OwnVars(c, ("m", "a")) == {}
            && Targets(c, ("m", "b")) == {("m", "a")} && OwnVars(c, ("m", "b")) == {}
            && OwnVars(c, ("m", "x")) == {("m", "x")}
  {
    var c := Looped();
    var args := [NameRef("b"), NameRef("x")];
    assert args[1..] == [NameRef("x")] && args[1..][1..] == [];
    assert NamesInAll(args) == {"b", "x"};
    assert Owns(c, "m", "a") && Owns(c, "m", "b") && Owns(c, "m", "x");
    assert At(c, ("m", "a")) == Found("m", Def(App("f", args)));
    assert NamesIn(App("f", args)) == {"f", "b", "x"};
    assert Refs("m", {"f", "b", "x"}, "a") == {("m", "f"), ("m", "b"), ("m", "x")};
    assert At(c, ("m", "b")) == Found("m", Def(NameRef("a")));
    assert Refs("m", {"a"}, "b") == {("m", "a")};
    assert At(c, ("m", "x")) == Found("m", Var);
  }

  lemma {:induction false} LoopedStaysHome(k: Node, w: Walk, n: Node)
    requires k.0 == "m" && Leads(Looped(), k, w, n)
    ensures !At(Looped(), n).Ambiguous?
    decreases w
  {
    assert Owners(Looped(), "m", k.1) == {};
    if w.Via? {
      LoopedStaysHome(w.next, w.rest, n);
    }
  }

  lemma LoopedClean(k: Node)
    requires k.0 == "m"
    ensures Clean(Looped(), k)
  {
    forall n | Refers(Looped(), k, n)
      ensures !At(Looped(), n).Ambiguous?
    {
      var w :| Leads(Looped(), k, w, n);
      LoopedStaysHome(k, w, n);
    }
  }

  lemma NothingAround(v: Node)
    ensures !ReadsAround(Looped(), ("m", "a"), ("m", "b"), v)
  {
    LoopedNames();
    var c, a, b := Looped(), ("m", "a"), ("m", "b");
    if ReadsAround(c, a, b, v) {
      var w, n :| LeadsAround(c, a, b, w, n) && v in OwnVars(c, n);
      match w
      case End => assert false;
      case Via(t, rest) => {
        assert t == a && !LeadsAround(c, a, a, rest, n);
        assert false;
      }
    }
  }

  lemma LoopReads()
    ensures ReadsVar(Looped(), ("m", "b"), ("m", "x"))
  {
    LoopedNames();
    ReadsOwn(Looped(), ("m", "x"), ("m", "x"));
    ReadsOn(Looped(), ("m", "a"), ("m", "x"), ("m", "x"));
    ReadsOn(Looped(), ("m", "b"), ("m", "a"), ("m", "x"));
  }

  /** On cyclic definitions a later answer depends on the earlier queries: asked after `a`, `b` reads nothing,
      although it reaches the variable and would report it if asked first. */
  method QueryOrderMatters(after: bool) returns (r: Option<set<Node>>)
    ensures r.Some? && ReadsVar(Looped(), ("m", "b"), ("m", "x"))
    ensures ("m", "x") in r.value <==> !after
  {
    LoopReads();
    LoopedClean(("m", "a"));
    LoopedClean(("m", "b"));
    var corpus := new Corpus(Looped());
    if after {
      var first := corpus.ReadSet("m", "a");
      LoopedNames();
      assert Settled(Looped(), map[], corpus.readsetCache, ("m", "a"), first.value);
      assert Around(Looped(), corpus.readsetCache, ("m", "a"));
      forall v
        ensures v !in corpus.readsetCache[("m", "b")]
      {
        NothingAround(v);
      }
    }
    r := corpus.ReadSet("m", "b");
  }
}

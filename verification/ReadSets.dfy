/** What the memoised read-set search keeps true of its cache. */
module ReadSets {

  import opened ModelNames

  type Cache = map<Node, set<Node>>

  /** Cached sets never claim a variable that is not reached. */
  ghost predicate Sound(c: Models, m: Cache)
  {
    forall k :: k in m ==> Within(c, k, m[k])
  }

  ghost predicate Within(c: Models, k: Node, s: set<Node>)
  {
    forall v :: v in s ==> ReadsVar(c, k, v)
  }

  ghost predicate Extends(a: Cache, b: Cache)
  {
    forall k :: k in a ==> k in b && b[k] == a[k]
  }

  /** A node visited since `before`: its targets are visited too, and what it owns and what its previously cached
      targets held is in `out`. */
  ghost predicate Settled(c: Models, before: Cache, now: Cache, k: Node, out: set<Node>)
  {
    && !At(c, k).Ambiguous? && OwnVars(c, k) <= out && Targets(c, k) <= now.Keys
    && (forall t :: t in Targets(c, k) && t in before ==> before[t] <= out)
  }

  ghost predicate AllSettled(c: Models, before: Cache, now: Cache, except: set<Node>, out: set<Node>)
  {
    forall k :: k in now && k !in before && k !in except ==> Settled(c, before, now, k, out)
  }

  // ----- what a cache lets a search find -----

  /** A walk whose nodes are uncached, save perhaps the last. */
  ghost predicate LeadsFresh(c: Models, m: Cache, k: Node, w: Walk, n: Node)
    decreases w
  {
    match w
    case End => k == n
    case Via(t, rest) => k !in m && t in Targets(c, k) && LeadsFresh(c, m, t, rest, n)
  }

  ghost function Held(c: Models, m: Cache, n: Node): set<Node>
  {
    if n in m then m[n] else OwnVars(c, n)
  }

  /** `v` is owned by an uncached node, or held by the first cached node, on some walk from `k`. */
  ghost predicate Finds(c: Models, m: Cache, k: Node, v: Node)
  {
    exists w, n :: LeadsFresh(c, m, k, w, n) && v in Held(c, m, n)
  }

  ghost predicate AllFound(c: Models, m: Cache, k: Node, s: set<Node>)
  {
    forall v :: v in s ==> Finds(c, m, k, v)
  }

  /** Entries made since `before` hold only what `before` lets a search find. */
  ghost predicate NewFound(c: Models, before: Cache, now: Cache)
  {
    forall k :: k in now && k !in before ==> AllFound(c, before, k, now[k])
  }

  lemma FindsOn(c: Models, m: Cache, k: Node, t: Node, v: Node)
    requires k !in m && t in Targets(c, k) && Finds(c, m, t, v)
    ensures Finds(c, m, k, v)
  {
    var w, n :| LeadsFresh(c, m, t, w, n) && v in Held(c, m, n);
    assert LeadsFresh(c, m, k, Via(t, w), n);
  }

  lemma HeldFound(c: Models, m: Cache, k: Node)
    ensures AllFound(c, m, k, Held(c, m, k))
  {
    assert LeadsFresh(c, m, k, End, k);
  }

  /** What a later cache lets a search find, the earlier one does. */
  lemma {:induction false} FoundEarlier(c: Models, before: Cache, mid: Cache, k: Node, w: Walk, n: Node, v: Node)
    requires Extends(before, mid) && NewFound(c, before, mid) && LeadsFresh(c, mid, k, w, n) && v in Held(c, mid, n)
    ensures Finds(c, before, k, v)
    decreases w
  {
    if w.Via? {
      FoundEarlier(c, before, mid, w.next, w.rest, n, v);
      FindsOn(c, before, k, w.next, v);
    } else if n in before || n !in mid {
      HeldFound(c, before, n);
    }
  }

  lemma AllFoundEarlier(c: Models, before: Cache, mid: Cache, k: Node, s: set<Node>)
    requires Extends(before, mid) && NewFound(c, before, mid) && AllFound(c, mid, k, s)
    ensures AllFound(c, before, k, s)
  {
    forall v | v in s
      ensures Finds(c, before, k, v)
    {
      var w, n :| LeadsFresh(c, mid, k, w, n) && v in Held(c, mid, n);
      FoundEarlier(c, before, mid, k, w, n, v);
    }
  }

  lemma NewFoundJoin(c: Models, before: Cache, mid: Cache, now: Cache)
    requires Extends(before, mid) && Extends(mid, now) && NewFound(c, before, mid) && NewFound(c, mid, now)
    ensures NewFound(c, before, now)
  {
    forall k | k in now && k !in before
      ensures AllFound(c, before, k, now[k])
    {
      if k !in mid {
        AllFoundEarlier(c, before, mid, k, now[k]);
      }
    }
  }

  lemma FoundStep(c: Models, before: Cache, mid: Cache, now: Cache, key: Node, t: Node, s: set<Node>, out: set<Node>)
    requires key !in before && t in Targets(c, key) && Extends(before, mid) && NewFound(c, before, mid)
    requires AllFound(c, before, key, out) && Outcome(c, mid, now, t, s)
    ensures NewFound(c, before, now) && AllFound(c, before, key, out + s)
  {
    NewFoundJoin(c, before, mid, now);
    HeldFound(c, mid, t);
    assert AllFound(c, mid, t, s);
    AllFoundEarlier(c, before, mid, t, s);
    forall v | v in s
      ensures Finds(c, before, key, v)
    {
      FindsOn(c, before, key, t, v);
    }
  }

  /** What a finished query leaves behind. */
  ghost predicate Outcome(c: Models, before: Cache, now: Cache, key: Node, out: set<Node>)
  {
    && Extends(before, now) && Sound(c, now) && NewFound(c, before, now)
    && key in now && now[key] == out
    && AllSettled(c, before, now, {}, out)
  }

  /** While the names `todo` of a definition are still to be searched. */
  ghost predicate Partial(c: Models, before: Cache, now: Cache, key: Node, todo: set<Node>, out: set<Node>)
  {
    && key !in before && key in now && now[key] == {}
    && Extends(before, now) && Sound(c, now) && Within(c, key, out)
    && NewFound(c, before, now) && AllFound(c, before, key, out)
    && AllSettled(c, before, now, {key}, out)
    && (forall t :: t in Targets(c, key) && t !in todo ==> t in now && (t in before ==> before[t] <= out))
  }

  /** Entering the cycle guard. */
  lemma GuardSound(c: Models, m: Cache, key: Node)
    requires Sound(c, m)
    ensures Sound(c, m[key := {}])
  {
  }

  lemma PartialStart(c: Models, before: Cache, key: Node)
    requires Sound(c, before) && key !in before
    ensures Partial(c, before, before[key := {}], key, Targets(c, key), {})
  {
  }

  lemma SettledGrows(c: Models, before: Cache, a: Cache, b: Cache, k: Node, s: set<Node>, out: set<Node>)
    requires Settled(c, before, a, k, s) && a.Keys <= b.Keys && s <= out
    ensures Settled(c, before, b, k, out)
  {
  }

  lemma SettledSince(c: Models, before: Cache, mid: Cache, now: Cache, k: Node, s: set<Node>, out: set<Node>)
    requires Settled(c, mid, now, k, s) && Extends(before, mid) && s <= out
    ensures Settled(c, before, now, k, out)
  {
  }

  lemma StepSettles(c: Models, before: Cache, mid: Cache, now: Cache, key: Node, t: Node, s: set<Node>, out: set<Node>)
    requires Extends(before, mid) && AllSettled(c, before, mid, {key}, out) && Outcome(c, mid, now, t, s)
    ensures AllSettled(c, before, now, {key}, out + s)
  {
    forall k | k in now && k !in before && k !in {key}
      ensures Settled(c, before, now, k, out + s)
    {
      if k in mid {
        SettledGrows(c, before, mid, now, k, out, out + s);
      } else {
        SettledSince(c, before, mid, now, k, s, out + s);
      }
    }
  }

  lemma WithinJoin(c: Models, key: Node, t: Node, out: set<Node>, s: set<Node>)
    requires Within(c, key, out) && t in Targets(c, key) && Within(c, t, s)
    ensures Within(c, key, out + s)
  {
    forall v | v in s
      ensures ReadsVar(c, key, v)
    {
      ReadsOn(c, key, t, v);
    }
  }

  /** Searching one more name keeps the loop going. */
  lemma PartialStep(c: Models, before: Cache, mid: Cache, now: Cache, key: Node, todo: set<Node>, t: Node,
                    s: set<Node>, out: set<Node>)
    requires Partial(c, before, mid, key, todo, out) && t in todo && t in Targets(c, key)
    requires Outcome(c, mid, now, t, s)
    ensures Partial(c, before, now, key, todo - {t}, out + s)
  {
    StepSettles(c, before, mid, now, key, t, s, out);
    FoundStep(c, before, mid, now, key, t, s, out);
    assert Within(c, t, now[t]);
    WithinJoin(c, key, t, out, s);
    forall x | x in Targets(c, key) && x !in todo - {t}
      ensures x in now && (x in before ==> before[x] <= out + s)
    {
      if x == t {
        assert x in before ==> mid[x] == before[x] && now[x] == mid[x];
      } else {
        assert x !in todo && x in mid;
      }
    }
  }

  lemma PartialEnd(c: Models, before: Cache, now: Cache, key: Node, out: set<Node>)
    requires Partial(c, before, now, key, {}, out)
    requires !At(c, key).Ambiguous? && OwnVars(c, key) == {}
    ensures Outcome(c, before, now[key := out], key, out)
  {
    var last := now[key := out];
    forall k | k in last && k !in before
      ensures Settled(c, before, last, k, out)
    {
      if k != key {
        SettledGrows(c, before, now, last, k, out, out);
      }
    }
  }

  /** A name with nothing to search. */
  lemma LeafOutcome(c: Models, before: Cache, key: Node)
    requires Sound(c, before) && key !in before && Targets(c, key) == {} && !At(c, key).Ambiguous?
    ensures Outcome(c, before, before[key := OwnVars(c, key)], key, OwnVars(c, key))
  {
    HeldFound(c, before, key);
    forall v | v in OwnVars(c, key)
      ensures ReadsVar(c, key, v)
    {
      ReadsOwn(c, key, v);
    }
  }

  // ----- the answer from any sound cache -----

  lemma {:induction false} WalkHeld(c: Models, before: Cache, now: Cache, out: set<Node>, k: Node, w: Walk, n: Node)
    requires AllSettled(c, before, now, {}, out)
    requires k in now && LeadsFresh(c, before, k, w, n) && (k in before ==> before[k] <= out)
    ensures Held(c, before, n) <= out && (n !in before ==> !At(c, n).Ambiguous?)
    decreases w
  {
    if k !in before {
      assert Settled(c, before, now, k, out);
      if w.Via? {
        WalkHeld(c, before, now, out, w.next, w.rest, n);
      }
    }
  }

  /** Whatever sound cache a query starts from, and however definitions refer to each other, the answer is exactly the
      variables owned by uncached nodes, and held by the first cached nodes, on the walks from the name. */
  lemma AnswerIsFound(c: Models, before: Cache, now: Cache, key: Node, out: set<Node>)
    requires Outcome(c, before, now, key, out)
    ensures forall v :: v in out <==> Finds(c, before, key, v)
  {
    if key in before {
      HeldFound(c, before, key);
    }
    assert AllFound(c, before, key, out);
    forall v | Finds(c, before, key, v)
      ensures v in out
    {
      var w, n :| LeadsFresh(c, before, key, w, n) && v in Held(c, before, n);
      WalkHeld(c, before, now, out, key, w, n);
    }
  }

  /** A cached node that a search from `key` meets first on some walk. */
  ghost predicate Meets(c: Models, m: Cache, key: Node, b: Node)
  {
    b in m && exists w :: LeadsFresh(c, m, key, w, b)
  }

  /** The cached nodes met reach no ambiguous name, and every variable they read is found. */
  ghost predicate CacheSuffices(c: Models, m: Cache, key: Node)
  {
    forall b :: Meets(c, m, key, b) ==> Clean(c, b) && forall v :: ReadsVar(c, b, v) ==> Finds(c, m, key, v)
  }

  lemma {:induction false} FreshLeads(c: Models, m: Cache, k: Node, w: Walk, n: Node)
    requires LeadsFresh(c, m, k, w, n)
    ensures Leads(c, k, w, n)
    decreases w
  {
    if w.Via? { FreshLeads(c, m, w.next, w.rest, n); }
  }

  /** A walk runs through uncached nodes to its end, or meets a cached node. */
  lemma {:induction false} FreshOrMeets(c: Models, m: Cache, k: Node, w: Walk, n: Node)
    requires Leads(c, k, w, n)
    ensures (n !in m && LeadsFresh(c, m, k, w, n)) || exists b :: Meets(c, m, k, b) && Refers(c, b, n)
    decreases w
  {
    if k in m {
      assert LeadsFresh(c, m, k, End, k) && Meets(c, m, k, k) && Refers(c, k, n);
    } else if w.Via? {
      FreshOrMeets(c, m, w.next, w.rest, n);
      if !(n !in m && LeadsFresh(c, m, w.next, w.rest, n)) {
        var b :| Meets(c, m, w.next, b) && Refers(c, b, n);
        var u :| LeadsFresh(c, m, w.next, u, b);
        assert LeadsFresh(c, m, k, Via(w.next, u), b) && Meets(c, m, k, b);
      }
    }
  }

  lemma SufficientIsExact(c: Models, before: Cache, now: Cache, key: Node, out: set<Node>)
    requires Outcome(c, before, now, key, out) && CacheSuffices(c, before, key)
    ensures Exact(c, key, out)
  {
    assert Within(c, key, now[key]);
    AnswerIsFound(c, before, now, key, out);
    forall n, w | Leads(c, key, w, n)
      ensures !At(c, n).Ambiguous? && OwnVars(c, n) <= out
    {
      FreshOrMeets(c, before, key, w, n);
      if n !in before && LeadsFresh(c, before, key, w, n) {
        WalkHeld(c, before, now, out, key, w, n);
      } else {
        var b :| Meets(c, before, key, b) && Refers(c, b, n);
        forall v | v in OwnVars(c, n)
          ensures v in out
        {
          assert ReadsVar(c, b, v);
        }
      }
    }
  }

  lemma {:induction false} WalkJoin(c: Models, k: Node, w: Walk, b: Node, u: Walk, n: Node)
    requires Leads(c, k, w, b) && Leads(c, b, u, n)
    ensures Refers(c, k, n)
    decreases w
  {
    if w.Via? {
      WalkJoin(c, w.next, w.rest, b, u, n);
      var x :| Leads(c, w.next, x, n);
      assert Leads(c, k, Via(w.next, x), n);
    }
  }

  lemma MetIsReached(c: Models, m: Cache, key: Node, b: Node, n: Node)
    requires Meets(c, m, key, b) && Refers(c, b, n)
    ensures Refers(c, key, n)
  {
    var w :| LeadsFresh(c, m, key, w, b);
    FreshLeads(c, m, key, w, b);
    var u :| Leads(c, b, u, n);
    WalkJoin(c, key, w, b, u, n);
  }

  /** A query is exact if and only if the cached nodes it meets reach no ambiguous name and read nothing that the
      search does not find. */
  lemma ExactExactly(c: Models, before: Cache, now: Cache, key: Node, out: set<Node>)
    requires Outcome(c, before, now, key, out)
    ensures Exact(c, key, out) <==> CacheSuffices(c, before, key)
  {
    if CacheSuffices(c, before, key) {
      SufficientIsExact(c, before, now, key, out);
    }
    if Exact(c, key, out) {
      AnswerIsFound(c, before, now, key, out);
      forall b | Meets(c, before, key, b)
        ensures Clean(c, b) && forall v :: ReadsVar(c, b, v) ==> Finds(c, before, key, v)
      {
        forall n | Refers(c, b, n)
          ensures Refers(c, key, n)
        {
          MetIsReached(c, before, key, b, n);
        }
      }
    }
  }

  // ----- exactness from an exact cache, cyclic definitions included -----

  ghost predicate AllExact(c: Models, m: Cache)
  {
    forall k :: k in m ==> Exact(c, k, m[k])
  }

  /** From a cache that is empty or all exact, a query answers exactly, even where definitions refer to each other in
      a circle: the cycle guard drops nothing from the answer to the query that is outermost. */
  lemma OutermostIsExact(c: Models, before: Cache, now: Cache, key: Node, out: set<Node>)
    requires AllExact(c, before) && Outcome(c, before, now, key, out)
    ensures Exact(c, key, out)
  {
    forall b | Meets(c, before, key, b)
      ensures Clean(c, b) && forall v :: ReadsVar(c, b, v) ==> Finds(c, before, key, v)
    {
      var w :| LeadsFresh(c, before, key, w, b);
      assert Exact(c, b, before[b]) && Held(c, before, b) == before[b];
    }
    SufficientIsExact(c, before, now, key, out);
  }

  // ----- exactness of every entry when definitions are acyclic -----

  /** The rank witnesses that no definition refers to itself through others. */
  ghost predicate Ranked(c: Models, rank: Node -> nat)
  {
    forall k, t :: t in Targets(c, k) ==> rank(t) < rank(k)
  }

  ghost predicate ExactBelow(c: Models, rank: Node -> nat, m: Cache, bound: nat)
  {
    forall k :: k in m && rank(k) <= bound ==> Exact(c, k, m[k])
  }

  /** Everything cached since is exact. */
  ghost predicate NewExact(c: Models, before: Cache, now: Cache, except: set<Node>)
  {
    forall k :: k in now && k !in before && k !in except ==> Exact(c, k, now[k])
  }

  ghost predicate Collected(c: Models, key: Node, todo: set<Node>, out: set<Node>)
  {
    forall t :: t in Targets(c, key) && t !in todo ==> Clean(c, t) && forall v :: ReadsVar(c, t, v) ==> v in out
  }

  lemma CollectStep(c: Models, key: Node, todo: set<Node>, t: Node, s: set<Node>, out: set<Node>)
    requires Collected(c, key, todo, out) && Exact(c, t, s)
    ensures Collected(c, key, todo - {t}, out + s)
  {
    forall x | x in Targets(c, key) && x !in todo - {t}
      ensures Clean(c, x) && forall v :: ReadsVar(c, x, v) ==> v in out + s
    {
      if x != t {
        assert x !in todo;
      }
    }
  }

  lemma CollectedIsExact(c: Models, key: Node, out: set<Node>)
    requires Collected(c, key, {}, out) && Within(c, key, out) && OwnVars(c, key) <= out && !At(c, key).Ambiguous?
    ensures Exact(c, key, out)
  {
    forall v | ReadsVar(c, key, v)
      ensures v in out
    {
      ReadsSplit(c, key, v);
    }
    CleanSplit(c, key);
  }

  lemma BelowChild(c: Models, rank: Node -> nat, before: Cache, mid: Cache, key: Node, t: Node)
    requires Ranked(c, rank) && t in Targets(c, key) && ExactBelow(c, rank, before, rank(key))
    requires Extends(before, mid) && NewExact(c, before, mid, {key})
    ensures ExactBelow(c, rank, mid, rank(t))
  {
    assert rank(t) < rank(key);
    forall k | k in mid && rank(k) <= rank(t)
      ensures Exact(c, k, mid[k])
    {
      if k in before {
        assert mid[k] == before[k];
      }
    }
  }

  lemma NewExactJoin(c: Models, before: Cache, mid: Cache, now: Cache, key: Node)
    requires Extends(mid, now) && NewExact(c, before, mid, {key}) && NewExact(c, mid, now, {})
    ensures NewExact(c, before, now, {key})
  {
    forall k | k in now && k !in before && k !in {key}
      ensures Exact(c, k, now[k])
    {
      if k in mid {
        assert now[k] == mid[k];
      }
    }
  }

  // ----- what the cycle guard costs -----

  /** A walk that never stands at `z`. */
  ghost predicate LeadsAround(c: Models, z: Node, k: Node, w: Walk, n: Node)
    decreases w
  {
    k != z && match w
              case End => k == n
              case Via(t, rest) => t in Targets(c, k) && LeadsAround(c, z, t, rest, n)
  }

  /** `v` is read from `k` without going through `z`. */
  ghost predicate ReadsAround(c: Models, z: Node, k: Node, v: Node)
  {
    exists w, n :: LeadsAround(c, z, k, w, n) && v in OwnVars(c, n)
  }

  ghost predicate AllAround(c: Models, z: Node, k: Node, s: set<Node>)
  {
    forall v :: v in s ==> ReadsAround(c, z, k, v)
  }

  /** Every other entry holds only what is read around `z`. */
  ghost predicate Around(c: Models, m: Cache, z: Node)
  {
    forall k :: k in m && k != z ==> AllAround(c, z, k, m[k])
  }

  /** `z` is being searched: its entry is the guard and the others were found around it. */
  ghost predicate Guarded(c: Models, m: Cache, z: Node)
  {
    z in m && m[z] == {} && Around(c, m, z)
  }

  lemma AroundOwn(c: Models, z: Node, k: Node)
    requires k != z
    ensures AllAround(c, z, k, OwnVars(c, k))
  {
    assert LeadsAround(c, z, k, End, k);
  }

  lemma AroundOn(c: Models, z: Node, k: Node, t: Node, s: set<Node>)
    requires k != z && t in Targets(c, k) && AllAround(c, z, t, s)
    ensures AllAround(c, z, k, s)
  {
    forall v | v in s
      ensures ReadsAround(c, z, k, v)
    {
      var w, n :| LeadsAround(c, z, t, w, n) && v in OwnVars(c, n);
      assert LeadsAround(c, z, k, Via(t, w), n);
    }
  }

  /** Whatever was being searched before stays searched around, and the query's own name is searched around. */
  ghost predicate KeepsAround(c: Models, before: Cache, now: Cache, key: Node)
  {
    && (forall z :: Guarded(c, before, z) ==> Around(c, now, z))
    && (Around(c, before, key) ==> Around(c, now, key))
  }

  ghost predicate OutAround(c: Models, before: Cache, key: Node, out: set<Node>)
  {
    forall z :: Guarded(c, before, z) && z != key ==> AllAround(c, z, key, out)
  }

  lemma StepAround(c: Models, before: Cache, mid: Cache, now: Cache, key: Node, t: Node, s: set<Node>, out: set<Node>)
    requires key !in before && key in mid && mid[key] == {} && Extends(before, mid) && Extends(mid, now)
    requires t in Targets(c, key) && t in now && now[t] == s
    requires KeepsAround(c, before, mid, key) && KeepsAround(c, mid, now, t) && OutAround(c, before, key, out)
    ensures KeepsAround(c, before, now, key) && OutAround(c, before, key, out + s)
  {
    forall z | Guarded(c, before, z)
      ensures Around(c, now, z) && (z != key ==> AllAround(c, z, key, out + s))
    {
      assert Guarded(c, mid, z);
      if z != key {
        if t == z {
          assert s == {};
        } else {
          AroundOn(c, z, key, t, s);
        }
      }
    }
    if Around(c, before, key) {
      assert Guarded(c, mid, key);
    }
  }

  lemma EndAround(c: Models, before: Cache, now: Cache, key: Node, out: set<Node>)
    requires key !in before && KeepsAround(c, before, now, key) && OutAround(c, before, key, out)
    ensures KeepsAround(c, before, now[key := out], key)
  {
    var last := now[key := out];
    forall z | Guarded(c, before, z)
      ensures Around(c, last, z)
    {
      assert z != key && AllAround(c, z, key, out);
    }
  }

  /** A finished query, and what acyclicity adds to it. */
  ghost predicate Finished(c: Models, rank: Node -> nat, before: Cache, now: Cache, key: Node, out: set<Node>)
  {
    && Outcome(c, before, now, key, out) && KeepsAround(c, before, now, key)
    && (Ranked(c, rank) && ExactBelow(c, rank, before, rank(key)) ==> NewExact(c, before, now, {}) && Exact(c, key, out))
  }

  /** The names of a definition are all searched. */
  ghost predicate Searched(c: Models, rank: Node -> nat, before: Cache, now: Cache, key: Node, todo: set<Node>, out: set<Node>)
  {
    && Partial(c, before, now, key, todo, out) && KeepsAround(c, before, now, key) && OutAround(c, before, key, out)
    && (Ranked(c, rank) && ExactBelow(c, rank, before, rank(key)) ==> NewExact(c, before, now, {key}) && Collected(c, key, todo, out))
  }

  lemma HitFinished(c: Models, rank: Node -> nat, m: Cache, key: Node)
    requires Sound(c, m) && key in m
    ensures Finished(c, rank, m, m, key, m[key])
  {
  }

  lemma LeafFinished(c: Models, rank: Node -> nat, before: Cache, key: Node)
    requires Sound(c, before) && key !in before && Targets(c, key) == {} && !At(c, key).Ambiguous?
    ensures Finished(c, rank, before, before[key := OwnVars(c, key)], key, OwnVars(c, key))
  {
    LeafOutcome(c, before, key);
    assert Within(c, key, before[key := OwnVars(c, key)][key]);
    CollectedIsExact(c, key, OwnVars(c, key));
    forall z | Guarded(c, before, z)
      ensures AllAround(c, z, key, OwnVars(c, key))
    {
      AroundOwn(c, z, key);
    }
    EndAround(c, before, before, key, OwnVars(c, key));
  }

  lemma SearchStart(c: Models, rank: Node -> nat, before: Cache, key: Node)
    requires Sound(c, before) && key !in before
    ensures Searched(c, rank, before, before[key := {}], key, Targets(c, key), {})
  {
    PartialStart(c, before, key);
    EndAround(c, before, before, key, {});
  }

  lemma SearchStep(c: Models, rank: Node -> nat, before: Cache, mid: Cache, now: Cache, key: Node, todo: set<Node>, t: Node,
                   s: set<Node>, out: set<Node>)
    requires Searched(c, rank, before, mid, key, todo, out) && t in todo && t in Targets(c, key)
    requires Finished(c, rank, mid, now, t, s)
    ensures Searched(c, rank, before, now, key, todo - {t}, out + s)
  {
    PartialStep(c, before, mid, now, key, todo, t, s, out);
    StepAround(c, before, mid, now, key, t, s, out);
    if Ranked(c, rank) && ExactBelow(c, rank, before, rank(key)) {
      BelowChild(c, rank, before, mid, key, t);
      CollectStep(c, key, todo, t, s, out);
      NewExactJoin(c, before, mid, now, key);
    }
  }

  lemma SearchEnd(c: Models, rank: Node -> nat, before: Cache, now: Cache, key: Node, out: set<Node>)
    requires Searched(c, rank, before, now, key, {}, out)
    requires !At(c, key).Ambiguous? && OwnVars(c, key) == {}
    ensures Finished(c, rank, before, now[key := out], key, out)
  {
    PartialEnd(c, before, now, key, out);
    EndAround(c, before, now, key, out);
    if Ranked(c, rank) && ExactBelow(c, rank, before, rank(key)) {
      CollectedIsExact(c, key, out);
    }
  }
}

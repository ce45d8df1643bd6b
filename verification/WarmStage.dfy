/** The CI run that the matrices describe, as a state machine: warm shards and cluster jobs build
    drvs in any interleaving; gated jobs wait for the whole warm stage. */
module WarmStage {
  import opened Trunk

  /** A matrix job: the cluster it came from, whether it waits, the drvs it realises, what its targets need. */
  datatype Job = Job(cluster: nat, gated: bool, roots: set<Drv>, needed: set<Drv>)

  datatype Plan = Plan(needs: seq<Need>, trunk: set<Drv>, shards: seq<set<Drv>>, jobs: seq<Job>)

  /** What each shard and each job has built so far. */
  datatype State = State(shards: seq<set<Drv>>, jobs: seq<set<Drv>>)

  datatype Action = ByShard(b: nat, d: Drv) | ByJob(j: nat, d: Drv)

  type Deps = Drv -> set<Drv>

  /** Uncached dependencies are acyclic: `rank` falls along them. */
  ghost predicate Acyclic(deps: Deps, rank: Drv -> nat)
  {
    forall d, e :: e in deps(d) ==> rank(e) < rank(d)
  }

  /** The shards share out the trunk by whole components. */
  ghost predicate ShardsOk(plan: Plan)
  {
    && (forall b, d :: 0 <= b < |plan.shards| && d in plan.shards[b] ==> d in plan.trunk)
    && (forall d :: d in plan.trunk ==> exists b :: 0 <= b < |plan.shards| && d in plan.shards[b])
    && (forall b, c, x, y | 0 <= b < |plan.shards| && 0 <= c < |plan.shards| && x in plan.shards[b] && y in plan.shards[c] ::
          Connected(plan.needs, plan.trunk, x, y) ==> b == c)
  }

  /** A job needs part of its cluster's needs, closed under dependency and with what it realises; only jobs
      that overlap the trunk wait. */
  ghost predicate JobOk(deps: Deps, needs: seq<Need>, trunk: set<Drv>, job: Job)
  {
    && job.cluster < |needs|
    && job.roots <= job.needed <= needs[job.cluster].drvs
    && ClosedUnder(deps, job.needed)
    && (!job.gated ==> job.needed !! trunk)
  }

  ghost predicate WellPlanned(deps: Deps, plan: Plan)
  {
    && NeedsClosed(deps, plan.needs) && IsTrunk(plan.needs, plan.trunk)
    && ShardsOk(plan)
    && forall j :: 0 <= j < |plan.jobs| ==> JobOk(deps, plan.needs, plan.trunk, plan.jobs[j])
  }

  // ----- steps -----

  /** `p` leads from a root down to `d` along uncached dependencies. */
  ghost predicate LeadsTo(deps: Deps, roots: set<Drv>, p: seq<Drv>, d: Drv)
  {
    && |p| > 0 && p[0] in roots && p[|p| - 1] == d
    && forall i :: 0 <= i < |p| - 1 ==> p[i + 1] in deps(p[i])
  }

  /** What `nix build` of the listed drvs may have to build: their uncached closure. */
  ghost predicate Wanted(deps: Deps, roots: set<Drv>, d: Drv)
  {
    exists p :: LeadsTo(deps, roots, p, d)
  }

  ghost predicate WarmDone(plan: Plan, s: State)
  {
    |s.shards| == |plan.shards| && forall b :: 0 <= b < |plan.shards| ==> plan.shards[b] <= s.shards[b]
  }

  /** What the shards have built so far, for others to substitute. */
  ghost function Uploaded(s: State): set<Drv>
  {
    set b, d | 0 <= b < |s.shards| && d in s.shards[b] :: d
  }

  /** What a job finds present: its own builds and, if it waited, whatever the shards uploaded. */
  ghost function Present(plan: Plan, s: State, j: nat): set<Drv>
    requires j < |plan.jobs| && j < |s.jobs|
  {
    s.jobs[j] + if plan.jobs[j].gated then Uploaded(s) else {}
  }

  /** A runner builds a drv it wants and does not find once all its dependencies are present.  Shards
      see only their own builds; a gated job starts after the warm stage. */
  ghost predicate Enabled(deps: Deps, plan: Plan, s: State, a: Action)
  {
    match a
    case ByShard(b, d) =>
      && b < |plan.shards| && b < |s.shards|
      && Wanted(deps, plan.shards[b], d) && d !in s.shards[b] && deps(d) <= s.shards[b]
    case ByJob(j, d) =>
      && j < |plan.jobs| && j < |s.jobs|
      && (plan.jobs[j].gated ==> WarmDone(plan, s))
      && Wanted(deps, plan.jobs[j].roots, d) && d !in Present(plan, s, j) && deps(d) <= Present(plan, s, j)
  }

  ghost function Apply(s: State, a: Action): State
    requires match a case ByShard(b, d) => b < |s.shards| case ByJob(j, d) => j < |s.jobs|
  {
    match a
    case ByShard(b, d) => s.(shards := s.shards[b := s.shards[b] + {d}])
    case ByJob(j, d) => s.(jobs := s.jobs[j := s.jobs[j] + {d}])
  }

  ghost function Initial(plan: Plan): State
  {
    State(seq(|plan.shards|, i => {}), seq(|plan.jobs|, i => {}))
  }

  /** `acts` is a run from the start that ends in `s`. */
  ghost predicate Run(deps: Deps, plan: Plan, acts: seq<Action>, s: State)
  {
    if acts == [] then s == Initial(plan)
    else
      var k := |acts| - 1;
      exists t :: Run(deps, plan, acts[..k], t) && Enabled(deps, plan, t, acts[k]) && s == Apply(t, acts[k])
  }

  // ----- the invariant -----

  /** What is left for a job to build itself: the closure of what it realises, without the trunk. */
  ghost function Work(deps: Deps, plan: Plan, job: Job): set<Drv>
  {
    set d | d in job.needed && Wanted(deps, job.roots, d) && d !in plan.trunk
  }

  ghost predicate Inv(deps: Deps, plan: Plan, s: State)
  {
    && |s.shards| == |plan.shards| && |s.jobs| == |plan.jobs|
    && (forall b :: 0 <= b < |s.shards| ==> s.shards[b] <= plan.shards[b])
    && (forall j :: 0 <= j < |s.jobs| ==> s.jobs[j] <= Work(deps, plan, plan.jobs[j]))
  }

  /** Shards are dependency-closed, so a shard never wants a drv outside its list. */
  lemma ShardClosed(deps: Deps, plan: Plan, b: nat)
    requires WellPlanned(deps, plan) && b < |plan.shards|
    ensures ClosedUnder(deps, plan.shards[b])
  {
    TrunkClosed(deps, plan.needs, plan.trunk);
    forall d, e | d in plan.shards[b] && e in deps(d)
      ensures e in plan.shards[b]
    {
      assert d in plan.trunk && deps(d) <= plan.trunk;
      var i, j :| 0 <= i < j < |plan.needs| && d in plan.needs[i].drvs && d in plan.needs[j].drvs;
      assert ClosedUnder(deps, plan.needs[i].drvs);
      assert CoOccur(plan.needs, d, e);
      ConnectedStep(plan.needs, plan.trunk, d, e);
      var c :| 0 <= c < |plan.shards| && e in plan.shards[c];
    }
  }

  lemma {:induction false} WantedInside(deps: Deps, roots: set<Drv>, p: seq<Drv>, d: Drv)
    requires ClosedUnder(deps, roots) && LeadsTo(deps, roots, p, d)
    ensures d in roots
  {
    if |p| > 1 {
      assert p[0 + 1] in deps(p[0]);
      WantedInside(deps, roots, p[1..], d);
    }
  }

  /** What a job wants is among its needs. */
  lemma WantedNeeded(deps: Deps, plan: Plan, j: nat, d: Drv)
    requires WellPlanned(deps, plan) && j < |plan.jobs| && Wanted(deps, plan.jobs[j].roots, d)
    ensures d in plan.jobs[j].needed
  {
    var job := plan.jobs[j];
    assert JobOk(deps, plan.needs, plan.trunk, job);
    var p :| LeadsTo(deps, job.roots, p, d);
    assert LeadsTo(deps, job.needed, p, d);
    WantedInside(deps, job.needed, p, d);
  }

  lemma WantedOn(deps: Deps, roots: set<Drv>, d: Drv, e: Drv)
    requires Wanted(deps, roots, d) && e in deps(d)
    ensures Wanted(deps, roots, e)
  {
    var p :| LeadsTo(deps, roots, p, d);
    assert LeadsTo(deps, roots, p + [e], e);
  }

  /** Once the warm stage is done, the whole trunk is there to substitute. */
  lemma WarmUploadsTrunk(plan: Plan, s: State)
    requires ShardsOk(plan) && WarmDone(plan, s)
    ensures plan.trunk <= Uploaded(s)
  {
    forall d | d in plan.trunk
      ensures d in Uploaded(s)
    {
      var b :| 0 <= b < |plan.shards| && d in plan.shards[b];
      assert d in s.shards[b];
    }
  }

  lemma OnlyTrunkUploaded(deps: Deps, plan: Plan, s: State)
    requires ShardsOk(plan) && Inv(deps, plan, s)
    ensures Uploaded(s) <= plan.trunk
  {
  }

  lemma StepKeepsInv(deps: Deps, plan: Plan, s: State, a: Action)
    requires WellPlanned(deps, plan) && Inv(deps, plan, s) && Enabled(deps, plan, s, a)
    ensures Inv(deps, plan, Apply(s, a))
  {
    match a
    case ByShard(b, d) =>
      ShardClosed(deps, plan, b);
      var p :| LeadsTo(deps, plan.shards[b], p, d);
      WantedInside(deps, plan.shards[b], p, d);
    case ByJob(j, d) =>
      WantedNeeded(deps, plan, j, d);
      assert JobOk(deps, plan.needs, plan.trunk, plan.jobs[j]);
      if plan.jobs[j].gated {
        WarmUploadsTrunk(plan, s);
      }
  }

  lemma {:induction false} RunKeepsInv(deps: Deps, plan: Plan, acts: seq<Action>, s: State)
    requires WellPlanned(deps, plan) && Run(deps, plan, acts, s)
    ensures Inv(deps, plan, s)
  {
    if acts != [] {
      var k := |acts| - 1;
      var t :| Run(deps, plan, acts[..k], t) && Enabled(deps, plan, t, acts[k]) && s == Apply(t, acts[k]);
      RunKeepsInv(deps, plan, acts[..k], t);
      StepKeepsInv(deps, plan, t, acts[k]);
    }
  }

  // ----- safety -----

  /** In every interleaving: no drv is built by two shards, no shard builds outside its list, no job
      rebuilds a trunk drv, and jobs from distinct clusters never build the same drv. */
  lemma NoDoubleBuild(deps: Deps, plan: Plan, acts: seq<Action>, s: State)
    requires WellPlanned(deps, plan) && Run(deps, plan, acts, s)
    ensures |s.shards| == |plan.shards| && |s.jobs| == |plan.jobs|
    ensures forall b :: 0 <= b < |s.shards| ==> s.shards[b] <= plan.shards[b]
    ensures forall b, c :: 0 <= b < c < |s.shards| ==> s.shards[b] !! s.shards[c]
    ensures forall j :: 0 <= j < |s.jobs| ==> s.jobs[j] !! plan.trunk
    ensures forall i, j :: 0 <= i < j < |s.jobs| && plan.jobs[i].cluster != plan.jobs[j].cluster ==> s.jobs[i] !! s.jobs[j]
  {
    RunKeepsInv(deps, plan, acts, s);
    forall b, c | 0 <= b < c < |s.shards|
      ensures s.shards[b] !! s.shards[c]
    {
      ShardsDisjoint(plan, b, c);
    }
    forall i, j | 0 <= i < j < |s.jobs| && plan.jobs[i].cluster != plan.jobs[j].cluster
      ensures s.jobs[i] !! s.jobs[j]
    {
      ClustersShareOnlyTrunk(deps, plan, i, j);
    }
  }

  lemma ShardsDisjoint(plan: Plan, b: nat, c: nat)
    requires ShardsOk(plan) && b < c < |plan.shards|
    ensures plan.shards[b] !! plan.shards[c]
  {
    forall d | d in plan.shards[b]
      ensures d !in plan.shards[c]
    {
      ConnectedRefl(plan.needs, plan.trunk, d);
    }
  }

  lemma ClustersShareOnlyTrunk(deps: Deps, plan: Plan, i: nat, j: nat)
    requires WellPlanned(deps, plan) && i < |plan.jobs| && j < |plan.jobs|
    requires plan.jobs[i].cluster != plan.jobs[j].cluster
    ensures Work(deps, plan, plan.jobs[i]) !! Work(deps, plan, plan.jobs[j])
  {
    var x, y := plan.jobs[i], plan.jobs[j];
    assert JobOk(deps, plan.needs, plan.trunk, x) && JobOk(deps, plan.needs, plan.trunk, y);
    forall d | d in x.needed && d in y.needed
      ensures d in plan.trunk
    {
      var lo, hi := if x.cluster < y.cluster then x.cluster else y.cluster, if x.cluster < y.cluster then y.cluster else x.cluster;
      assert d in plan.needs[lo].drvs && d in plan.needs[hi].drvs;
      assert Shared(plan.needs, d);
    }
  }

  // ----- progress -----

  ghost predicate ShardUnfinished(plan: Plan, s: State, b: nat)
  {
    b < |plan.shards| && b < |s.shards| && !(plan.shards[b] <= s.shards[b])
  }

  ghost predicate JobUnfinished(deps: Deps, plan: Plan, s: State, j: nat)
  {
    j < |plan.jobs| && j < |s.jobs| && !(Work(deps, plan, plan.jobs[j]) <= s.jobs[j])
  }

  ghost predicate Finished(deps: Deps, plan: Plan, s: State)
  {
    (forall b: nat :: !ShardUnfinished(plan, s, b)) && (forall j: nat :: !JobUnfinished(deps, plan, s, j))
  }

  lemma {:induction false} LowestRank(rank: Drv -> nat, s: set<Drv>) returns (d: Drv)
    requires s != {}
    ensures d in s && forall e :: e in s ==> rank(d) <= rank(e)
  {
    d :| d in s;
    if s != {d} {
      var e := LowestRank(rank, s - {d});
      if rank(e) < rank(d) { d := e; }
    }
  }

  /** A shard that is not done can always build something, whatever the other runners have done. */
  lemma ShardNeverStuck(deps: Deps, rank: Drv -> nat, plan: Plan, s: State, b: nat) returns (d: Drv)
    requires WellPlanned(deps, plan) && Acyclic(deps, rank) && Inv(deps, plan, s) && ShardUnfinished(plan, s, b)
    ensures Enabled(deps, plan, s, ByShard(b, d))
  {
    var missing :| missing in plan.shards[b] && missing !in s.shards[b];
    assert missing in plan.shards[b] - s.shards[b];
    d := LowestRank(rank, plan.shards[b] - s.shards[b]);
    ShardClosed(deps, plan, b);
    assert LeadsTo(deps, plan.shards[b], [d], d);
    forall e | e in deps(d)
      ensures e in s.shards[b]
    {
      assert e in plan.shards[b] && rank(e) < rank(d);
    }
  }

  /** A job that is not done can build something, at once if it is not gated, else after the warm stage. */
  lemma JobNeverStuck(deps: Deps, rank: Drv -> nat, plan: Plan, s: State, j: nat) returns (d: Drv)
    requires WellPlanned(deps, plan) && Acyclic(deps, rank) && Inv(deps, plan, s) && JobUnfinished(deps, plan, s, j)
    requires plan.jobs[j].gated ==> WarmDone(plan, s)
    ensures Enabled(deps, plan, s, ByJob(j, d))
  {
    var job := plan.jobs[j];
    assert JobOk(deps, plan.needs, plan.trunk, job);
    var missing :| missing in Work(deps, plan, job) && missing !in s.jobs[j];
    assert missing in Work(deps, plan, job) - s.jobs[j];
    d := LowestRank(rank, Work(deps, plan, job) - s.jobs[j]);
    OnlyTrunkUploaded(deps, plan, s);
    if job.gated {
      WarmUploadsTrunk(plan, s);
    }
    forall e | e in deps(d)
      ensures e in Present(plan, s, j)
    {
      WantedOn(deps, job.roots, d, e);
      assert e in job.needed && rank(e) < rank(d);
    }
  }

  lemma NeverStuck(deps: Deps, rank: Drv -> nat, plan: Plan, s: State) returns (a: Action)
    requires WellPlanned(deps, plan) && Acyclic(deps, rank) && Inv(deps, plan, s) && !Finished(deps, plan, s)
    ensures Enabled(deps, plan, s, a)
  {
    if b: nat :| ShardUnfinished(plan, s, b) {
      var d := ShardNeverStuck(deps, rank, plan, s, b);
      a := ByShard(b, d);
    } else {
      var j: nat :| JobUnfinished(deps, plan, s, j);
      forall b | 0 <= b < |plan.shards|
        ensures plan.shards[b] <= s.shards[b]
      {
        assert !ShardUnfinished(plan, s, b);
      }
      var d := JobNeverStuck(deps, rank, plan, s, j);
      a := ByJob(j, d);
    }
  }

  // ----- every run is finite -----

  ghost function Size(sets: seq<set<Drv>>): nat
  {
    if sets == [] then 0 else Size(sets[..|sets| - 1]) + |sets[|sets| - 1]|
  }

  lemma {:induction false} SizeGrows(sets: seq<set<Drv>>, i: nat, d: Drv)
    requires i < |sets| && d !in sets[i]
    ensures Size(sets[i := sets[i] + {d}]) == Size(sets) + 1
  {
    var k := |sets| - 1;
    var sets' := sets[i := sets[i] + {d}];
    if i < k {
      SizeGrows(sets[..k], i, d);
      assert sets'[..k] == sets[..k][i := sets[i] + {d}];
    } else {
      assert sets'[..k] == sets[..k];
    }
  }

  lemma {:induction false} SizeMono(x: seq<set<Drv>>, y: seq<set<Drv>>)
    requires |x| == |y| && forall i :: 0 <= i < |x| ==> x[i] <= y[i]
    ensures Size(x) <= Size(y)
  {
    if x != [] {
      var k := |x| - 1;
      SizeMono(x[..k], y[..k]);
      assert y[k] == x[k] + (y[k] - x[k]);
    }
  }

  ghost function Works(deps: Deps, plan: Plan): seq<set<Drv>>
  {
    seq(|plan.jobs|, j requires 0 <= j < |plan.jobs| => Work(deps, plan, plan.jobs[j]))
  }

  ghost function TotalWork(deps: Deps, plan: Plan): nat
  {
    Size(plan.shards) + Size(Works(deps, plan))
  }

  ghost function Built(s: State): nat
  {
    Size(s.shards) + Size(s.jobs)
  }

  lemma StepBuildsOne(deps: Deps, plan: Plan, s: State, a: Action)
    requires Enabled(deps, plan, s, a)
    ensures Built(Apply(s, a)) == Built(s) + 1
  {
    match a
    case ByShard(b, d) => SizeGrows(s.shards, b, d);
    case ByJob(j, d) => SizeGrows(s.jobs, j, d);
  }

  lemma InvBoundsBuilt(deps: Deps, plan: Plan, s: State)
    requires Inv(deps, plan, s)
    ensures Built(s) <= TotalWork(deps, plan)
  {
    SizeMono(s.shards, plan.shards);
    SizeMono(s.jobs, Works(deps, plan));
  }

  lemma {:induction false} SizeOfEmpties(n: nat)
    ensures Size(seq(n, i => {})) == 0
  {
    if n > 0 {
      var e: seq<set<Drv>> := seq(n, i => {});
      assert e[..n - 1] == seq(n - 1, i => {});
      SizeOfEmpties(n - 1);
    }
  }

  lemma {:induction false} RunBuilds(deps: Deps, plan: Plan, acts: seq<Action>, s: State)
    requires Run(deps, plan, acts, s)
    ensures Built(s) == |acts|
  {
    if acts == [] {
      SizeOfEmpties(|plan.shards|);
      SizeOfEmpties(|plan.jobs|);
    } else {
      var k := |acts| - 1;
      var t :| Run(deps, plan, acts[..k], t) && Enabled(deps, plan, t, acts[k]) && s == Apply(t, acts[k]);
      RunBuilds(deps, plan, acts[..k], t);
      StepBuildsOne(deps, plan, t, acts[k]);
    }
  }

  /** No run is longer than the work there is, and every run that is not finished can go on. */
  lemma RunsEndFinished(deps: Deps, rank: Drv -> nat, plan: Plan, acts: seq<Action>, s: State)
    requires WellPlanned(deps, plan) && Acyclic(deps, rank) && Run(deps, plan, acts, s)
    ensures |acts| <= TotalWork(deps, plan)
    ensures Finished(deps, plan, s) || exists a :: Enabled(deps, plan, s, a)
  {
    RunKeepsInv(deps, plan, acts, s);
    RunBuilds(deps, plan, acts, s);
    InvBoundsBuilt(deps, plan, s);
    if !Finished(deps, plan, s) {
      var a := NeverStuck(deps, rank, plan, s);
    }
  }

  /** Any run can be continued to the end. */
  lemma {:induction false} CanFinish(deps: Deps, rank: Drv -> nat, plan: Plan, acts: seq<Action>, s: State)
    returns (acts': seq<Action>, s': State)
    requires WellPlanned(deps, plan) && Acyclic(deps, rank) && Run(deps, plan, acts, s)
    ensures acts <= acts' && Run(deps, plan, acts', s') && Finished(deps, plan, s') && Inv(deps, plan, s')
    decreases TotalWork(deps, plan) - |acts|
  {
    RunsEndFinished(deps, rank, plan, acts, s);
    RunKeepsInv(deps, plan, acts, s);
    if Finished(deps, plan, s) {
      acts', s' := acts, s;
    } else {
      var a := NeverStuck(deps, rank, plan, s);
      var more := acts + [a];
      assert more[..|acts|] == acts;
      assert Run(deps, plan, more, Apply(s, a));
      RunBuilds(deps, plan, more, Apply(s, a));
      RunKeepsInv(deps, plan, more, Apply(s, a));
      InvBoundsBuilt(deps, plan, Apply(s, a));
      acts', s' := CanFinish(deps, rank, plan, more, Apply(s, a));
    }
  }

  // ----- when two jobs can race -----

  /** A run in which jobs i and j have both built `d`. */
  ghost predicate Race(deps: Deps, plan: Plan, acts: seq<Action>, s: State, i: nat, j: nat, d: Drv)
  {
    Run(deps, plan, acts, s) && i < |s.jobs| && j < |s.jobs| && d in s.jobs[i] && d in s.jobs[j]
  }

  /** Two jobs both build `d` in some run exactly if it is in the closure of both and not in the trunk.  So the
      halves of a split cluster may repeat a drv that only their cluster needs. */
  lemma RaceExactly(deps: Deps, rank: Drv -> nat, plan: Plan, i: nat, j: nat, d: Drv)
    requires WellPlanned(deps, plan) && Acyclic(deps, rank) && i < j < |plan.jobs|
    ensures (exists acts, s :: Race(deps, plan, acts, s, i, j, d))
       <==> Wanted(deps, plan.jobs[i].roots, d) && Wanted(deps, plan.jobs[j].roots, d) && d !in plan.trunk
  {
    if acts, s :| Race(deps, plan, acts, s, i, j, d) {
      RunKeepsInv(deps, plan, acts, s);
      assert d in Work(deps, plan, plan.jobs[i]) && d in Work(deps, plan, plan.jobs[j]);
    }
    if Wanted(deps, plan.jobs[i].roots, d) && Wanted(deps, plan.jobs[j].roots, d) && d !in plan.trunk {
      WantedNeeded(deps, plan, i, d);
      WantedNeeded(deps, plan, j, d);
      assert Run(deps, plan, [], Initial(plan));
      var acts, s := CanFinish(deps, rank, plan, [], Initial(plan));
      assert !JobUnfinished(deps, plan, s, i) && !JobUnfinished(deps, plan, s, j);
      assert d in Work(deps, plan, plan.jobs[i]) && d in Work(deps, plan, plan.jobs[j]);
      assert Race(deps, plan, acts, s, i, j, d);
    }
  }
}

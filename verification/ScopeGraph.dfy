/** The walk over a resolved module graph that decides which files are test code. A file can first be reached
    as production code and later be upgraded to test code, which sends the walk over its descendants again. */
module ScopeGraph {

  import opened Options
  import Ordering

  type File = string

  /** A module declaration that resolves to a file; `gated` says that it carries a test gate. */
  datatype Link = Link(line: nat, gated: bool, child: File)

  /** The files with the line of each one's inner test attribute, if any, and its declarations; the crate roots;
      and the files whose name marks them as tests. */
  datatype Graph = Graph(inner: map<File, Option<nat>>, links: map<File, seq<Link>>, roots: set<File>, testNamed: set<File>)

  /** Why a file has its verdict. */
  datatype Edge = CrateRoot | InnerAttr(line: nat) | Declaration(parent: File, line: nat) | Filename | Parent(parent: File)

  datatype Verdict = Verdict(test: bool, edge: Edge)

  type Scope = map<File, Verdict>

  function Files(t: Graph): set<File>
  {
    t.links.Keys
  }

  predicate Inside(t: Graph, d: Link)
  {
    d.child in t.links
  }

  predicate WellFormed(t: Graph)
  {
    && t.inner.Keys == t.links.Keys
    && t.roots <= t.links.Keys
    && forall f, i :: f in t.links && 0 <= i < |t.links[f]| ==> Inside(t, t.links[f][i])
  }

  function InnerLine(t: Graph, f: File): Option<nat>
  {
    if f in t.inner then t.inner[f] else None
  }

  // ----- the meaning: paths from a crate root -----

  datatype Path = Start(file: File) | Follow(before: Path, index: nat, file: File)

  ghost predicate IsPath(t: Graph, p: Path)
    requires WellFormed(t)
  {
    match p
    case Start(f) => f in t.roots
    case Follow(q, i, f) =>
      && IsPath(t, q) && q.file in Files(t) && i < |t.links[q.file]|
      && t.links[q.file][i].child == f
  }

  /** Some gate stands on the path: an inner attribute of a file on it, a gated declaration it follows, or the
      test file name of a file it leads to. */
  ghost predicate Crosses(t: Graph, p: Path)
    requires WellFormed(t) && IsPath(t, p)
  {
    match p
    case Start(f) => InnerLine(t, f).Some?
    case Follow(q, i, f) => Crosses(t, q) || InnerLine(t, f).Some? || t.links[q.file][i].gated || f in t.testNamed
  }

  ghost predicate Reachable(t: Graph, f: File)
    requires WellFormed(t)
  {
    exists p :: IsPath(t, p) && p.file == f
  }

  ghost predicate TestReachable(t: Graph, f: File)
    requires WellFormed(t)
  {
    exists p :: IsPath(t, p) && p.file == f && Crosses(t, p)
  }

  // ----- one declaration -----

  /** The verdict one declaration gives its target. */
  function Judge(t: Graph, rel: File, relTest: bool, d: Link): Verdict
  {
    if InnerLine(t, d.child).Some? then Verdict(true, InnerAttr(InnerLine(t, d.child).value))
    else if d.gated then Verdict(true, Declaration(rel, d.line))
    else if d.child in t.testNamed then Verdict(true, Filename)
    else if relTest then Verdict(true, Parent(rel))
    else Verdict(false, Declaration(rel, d.line))
  }

  /** Whether a verdict is new: the file is unseen, or it was production and is now test. */
  predicate Improves(scope: Scope, child: File, v: Verdict)
  {
    child !in scope || (v.test && !scope[child].test)
  }

  // ----- what holds during the walk -----

  ghost predicate Grows(a: Scope, b: Scope)
  {
    forall f :: f in a ==> f in b && (a[f].test ==> b[f].test) && (!a[f].test && !b[f].test ==> a[f] == b[f])
  }

  /** The declaration asks nothing more of the scope. */
  ghost predicate Served(t: Graph, scope: Scope, rel: File, relTest: bool, d: Link)
    requires WellFormed(t)
  {
    d.child in scope && (Judge(t, rel, relTest, d).test ==> scope[d.child].test)
  }

  ghost predicate ServedTo(t: Graph, scope: Scope, rel: File, relTest: bool, n: nat)
    requires WellFormed(t) && rel in Files(t) && n <= |t.links[rel]|
  {
    forall i :: 0 <= i < n ==> Served(t, scope, rel, relTest, t.links[rel][i])
  }

  ghost predicate Done(t: Graph, scope: Scope, rel: File)
    requires WellFormed(t)
  {
    rel in scope && rel in Files(t) && ServedTo(t, scope, rel, scope[rel].test, |t.links[rel]|)
  }

  /** Every file in scope is served or still waits. */
  ghost predicate Covered(t: Graph, scope: Scope, waiting: set<File>)
    requires WellFormed(t)
  {
    forall f :: f in scope ==> f in waiting || Done(t, scope, f)
  }

  ghost predicate RootsIn(t: Graph, scope: Scope)
    requires WellFormed(t)
  {
    forall f :: f in t.roots ==> f in scope && (InnerLine(t, f).Some? ==> scope[f].test)
  }

  /** A declaration of `parent` on the given line leads to the file. */
  ghost predicate Declares(t: Graph, parent: File, line: nat, f: File, gated: bool)
  {
    parent in Files(t) && exists i :: 0 <= i < |t.links[parent]| && t.links[parent][i].child == f
                               && t.links[parent][i].line == line && t.links[parent][i].gated == gated
  }

  /** Some ungated declaration of `parent` leads to the file. */
  ghost predicate NamesPlainly(t: Graph, parent: File, f: File)
  {
    parent in Files(t) && exists i :: 0 <= i < |t.links[parent]| && t.links[parent][i].child == f && !t.links[parent][i].gated
  }

  ghost predicate NamedPlainly(t: Graph, scope: Scope, f: File)
  {
    exists parent :: parent in scope && NamesPlainly(t, parent, f)
  }

  /** The recorded edge is a true reason for the recorded verdict, and no rule that comes before it applies to the
      declaration it came from. */
  ghost predicate Justified(t: Graph, scope: Scope, f: File, v: Verdict)
    requires WellFormed(t) && f in Files(t)
  {
    match v.edge
    case CrateRoot => f in t.roots && v.test == InnerLine(t, f).Some?
    case InnerAttr(line) => v.test && InnerLine(t, f) == Some(line)
    case Declaration(parent, line) =>
      parent in scope && Declares(t, parent, line, f, v.test) && InnerLine(t, f).None? && (!v.test ==> f !in t.testNamed)
    case Filename => v.test && f in t.testNamed && InnerLine(t, f).None? && NamedPlainly(t, scope, f)
    case Parent(parent) =>
      v.test && parent in scope && scope[parent].test && NamesPlainly(t, parent, f) && InnerLine(t, f).None? && f !in t.testNamed
  }

  ghost predicate Sound(t: Graph, scope: Scope)
    requires WellFormed(t)
  {
    forall f :: f in scope ==>
      f in Files(t) && Reachable(t, f) && (scope[f].test ==> TestReachable(t, f)) && Justified(t, scope, f, scope[f])
  }

  // ----- lemmas -----

  lemma ReachStep(t: Graph, rel: File, i: nat, f: File)
    requires WellFormed(t) && rel in Files(t) && i < |t.links[rel]| && t.links[rel][i].child == f
    requires Reachable(t, rel)
    ensures Reachable(t, f)
    ensures InnerLine(t, f).Some? || t.links[rel][i].gated || f in t.testNamed ==> TestReachable(t, f)
  {
    var p :| IsPath(t, p) && p.file == rel;
    var q := Follow(p, i, f);
    assert IsPath(t, q) && q.file == f;
  }

  lemma TestStep(t: Graph, rel: File, i: nat, f: File)
    requires WellFormed(t) && rel in Files(t) && i < |t.links[rel]| && t.links[rel][i].child == f
    requires TestReachable(t, rel)
    ensures TestReachable(t, f)
  {
    var p :| IsPath(t, p) && p.file == rel && Crosses(t, p);
    var q := Follow(p, i, f);
    assert IsPath(t, q) && q.file == f && Crosses(t, q);
  }

  lemma JudgeSound(t: Graph, scope: Scope, rel: File, relTest: bool, i: nat, f: File)
    requires WellFormed(t) && Sound(t, scope) && rel in scope && i < |t.links[rel]| && (relTest ==> scope[rel].test)
    requires t.links[rel][i].child == f
    ensures var v := Judge(t, rel, relTest, t.links[rel][i]);
            Reachable(t, f) && (v.test ==> TestReachable(t, f)) && Justified(t, scope, f, v)
  {
    ReachStep(t, rel, i, f);
    if relTest {
      TestStep(t, rel, i, f);
    }
  }

  lemma JustifiedKept(t: Graph, a: Scope, b: Scope, f: File, v: Verdict)
    requires WellFormed(t) && f in Files(t) && Justified(t, a, f, v) && Grows(a, b)
    ensures Justified(t, b, f, v)
  {
  }

  lemma RecordGrows(scope: Scope, f: File, v: Verdict)
    requires Improves(scope, f, v)
    ensures Grows(scope, scope[f := v])
  {
  }

  lemma RecordSound(t: Graph, scope: Scope, f: File, v: Verdict)
    requires WellFormed(t) && Sound(t, scope) && Improves(scope, f, v) && f in Files(t)
    requires Reachable(t, f) && (v.test ==> TestReachable(t, f)) && Justified(t, scope, f, v)
    ensures Sound(t, scope[f := v])
  {
    var next := scope[f := v];
    RecordGrows(scope, f, v);
    forall g | g in next
      ensures g in Files(t) && Reachable(t, g) && (next[g].test ==> TestReachable(t, g)) && Justified(t, next, g, next[g])
    {
      JustifiedKept(t, scope, next, g, next[g]);
    }
  }

  lemma ServedKept(t: Graph, a: Scope, b: Scope, rel: File, relTest: bool, n: nat)
    requires WellFormed(t) && rel in Files(t) && n <= |t.links[rel]|
    requires ServedTo(t, a, rel, relTest, n) && Grows(a, b)
    ensures ServedTo(t, b, rel, relTest, n)
  {
    forall i | 0 <= i < n
      ensures Served(t, b, rel, relTest, t.links[rel][i])
    {
      assert Served(t, a, rel, relTest, t.links[rel][i]);
    }
  }

  lemma CoveredKept(t: Graph, scope: Scope, waiting: set<File>, f: File, v: Verdict)
    requires WellFormed(t) && Covered(t, scope, waiting) && Improves(scope, f, v)
    ensures Covered(t, scope[f := v], waiting + {f})
  {
    var next := scope[f := v];
    RecordGrows(scope, f, v);
    forall g | g in next && g !in waiting + {f}
      ensures Done(t, next, g)
    {
      ServedKept(t, scope, next, g, scope[g].test, |t.links[g]|);
    }
  }

  /** A scope that holds the roots and serves every declaration holds every path. */
  lemma {:induction false} PathsHeld(t: Graph, scope: Scope, p: Path)
    requires WellFormed(t) && RootsIn(t, scope) && Covered(t, scope, {}) && IsPath(t, p)
    ensures p.file in scope && (Crosses(t, p) ==> scope[p.file].test)
  {
    match p
    case Start(f) => {}
    case Follow(q, i, f) => {
      PathsHeld(t, scope, q);
      assert Done(t, scope, q.file);
      assert Served(t, scope, q.file, scope[q.file].test, t.links[q.file][i]);
    }
  }

  /** The final scope is exact. */
  ghost predicate Exact(t: Graph, scope: Scope)
    requires WellFormed(t)
  {
    && (forall f :: f in scope <==> Reachable(t, f))
    && (forall f :: f in scope ==> (scope[f].test <==> TestReachable(t, f)))
    && (forall f :: f in scope ==> f in Files(t) && Justified(t, scope, f, scope[f]))
  }

  lemma SettledIsExact(t: Graph, scope: Scope)
    requires WellFormed(t) && RootsIn(t, scope) && Covered(t, scope, {}) && Sound(t, scope)
    ensures Exact(t, scope)
  {
    forall f | Reachable(t, f)
      ensures f in scope
    {
      var p :| IsPath(t, p) && p.file == f;
      PathsHeld(t, scope, p);
    }
    forall f | f in scope && TestReachable(t, f)
      ensures scope[f].test
    {
      var p :| IsPath(t, p) && p.file == f && Crosses(t, p);
      PathsHeld(t, scope, p);
    }
  }

  /** Any two exact scopes give every file the same verdict, whatever order they were found in. */
  lemma VerdictsUnique(t: Graph, a: Scope, b: Scope)
    requires WellFormed(t) && Exact(t, a) && Exact(t, b)
    ensures a.Keys == b.Keys
    ensures forall f :: f in a && f in b ==> a[f].test == b[f].test
  {
    forall f
      ensures f in a <==> f in b
    {
      assert f in a <==> Reachable(t, f);
      assert f in b <==> Reachable(t, f);
    }
    forall f | f in a && f in b
      ensures a[f].test == b[f].test
    {
      assert a[f].test <==> TestReachable(t, f);
      assert b[f].test <==> TestReachable(t, f);
    }
  }

  // ----- termination -----

  function Production(scope: Scope): set<File>
  {
    set f | f in scope && !scope[f].test
  }

  /** Twice the unseen files plus the production files: every improvement lowers it. */
  function Work(t: Graph, scope: Scope): nat
  {
    2 * |Files(t) - scope.Keys| + |Production(scope)|
  }

  lemma SmallerWithout(s: set<File>, f: File)
    requires f in s
    ensures |s - {f}| == |s| - 1
  {
  }

  lemma NewProduction(scope: Scope, f: File, v: Verdict)
    requires f !in scope
    ensures |Production(scope[f := v])| <= |Production(scope)| + 1
  {
    assert Production(scope[f := v]) == if v.test then Production(scope) else Production(scope) + {f};
  }

  lemma NewFileWorks(t: Graph, scope: Scope, f: File, v: Verdict)
    requires f in Files(t) && f !in scope
    ensures Work(t, scope[f := v]) < Work(t, scope)
  {
    assert Files(t) - scope[f := v].Keys == (Files(t) - scope.Keys) - {f};
    SmallerWithout(Files(t) - scope.Keys, f);
    NewProduction(scope, f, v);
  }

  lemma UpgradeWorks(t: Graph, scope: Scope, f: File, v: Verdict)
    requires f in scope && v.test && !scope[f].test
    ensures Work(t, scope[f := v]) < Work(t, scope)
  {
    var next := scope[f := v];
    assert next.Keys == scope.Keys;
    assert Production(next) == Production(scope) - {f};
    SmallerWithout(Production(scope), f);
  }

  lemma RecordWorks(t: Graph, scope: Scope, f: File, v: Verdict)
    requires f in Files(t) && Improves(scope, f, v)
    ensures Work(t, scope[f := v]) < Work(t, scope)
  {
    if f in scope {
      UpgradeWorks(t, scope, f, v);
    } else {
      NewFileWorks(t, scope, f, v);
    }
  }

  // ----- the walk -----

  function Elems(s: seq<File>): set<File>
  {
    set f | f in s
  }

  lemma FileDone(t: Graph, scope: Scope, waiting: set<File>, rel: File, relTest: bool)
    requires WellFormed(t) && rel in scope && rel in Files(t) && Covered(t, scope, waiting + {rel})
    requires ServedTo(t, scope, rel, relTest, |t.links[rel]|)
    requires scope[rel].test == relTest || rel in waiting
    ensures Covered(t, scope, waiting)
  {
    forall f | f in scope && f !in waiting
      ensures Done(t, scope, f)
    {
      assert f != rel ==> f !in waiting + {rel};
    }
  }

  lemma ElemsPush(stack: seq<File>, f: File, later: set<File>)
    ensures Elems(stack + [f]) + later == Elems(stack) + later + {f}
  {
  }

  datatype State = State(scope: Scope, stack: seq<File>)

  /** Between steps: the scope is sound, holds the roots, and everything unserved waits. */
  ghost predicate Inv(t: Graph, st: State, later: set<File>)
    requires WellFormed(t)
  {
    && Sound(t, st.scope) && RootsIn(t, st.scope) && Covered(t, st.scope, Elems(st.stack) + later)
    && Elems(st.stack) <= st.scope.Keys
  }

  /** Follows one declaration of `rel`. */
  function FollowDecl(t: Graph, st: State, rel: File, relTest: bool, d: Link): State
  {
    var v := Judge(t, rel, relTest, d);
    if Improves(st.scope, d.child, v) then State(st.scope[d.child := v], st.stack + [d.child]) else st
  }

  lemma FollowWorks(t: Graph, st: State, rel: File, relTest: bool, d: Link)
    requires d.child in Files(t)
    ensures var r := FollowDecl(t, st, rel, relTest, d); r == st || Work(t, r.scope) < Work(t, st.scope)
  {
    if Improves(st.scope, d.child, Judge(t, rel, relTest, d)) {
      RecordWorks(t, st.scope, d.child, Judge(t, rel, relTest, d));
    }
  }

  lemma FollowGrows(t: Graph, st: State, rel: File, relTest: bool, d: Link)
    requires WellFormed(t)
    ensures var r := FollowDecl(t, st, rel, relTest, d);
            Served(t, r.scope, rel, relTest, d) && Grows(st.scope, r.scope) && st.stack <= r.stack
    ensures var r := FollowDecl(t, st, rel, relTest, d);
            rel in st.scope && rel in r.scope && st.scope[rel].test != r.scope[rel].test ==> rel in Elems(r.stack)
  {
  }

  lemma RootsKept(t: Graph, a: Scope, b: Scope)
    requires WellFormed(t) && RootsIn(t, a) && Grows(a, b)
    ensures RootsIn(t, b)
  {
  }

  lemma PushInv(t: Graph, st: State, f: File, v: Verdict, later: set<File>)
    requires WellFormed(t) && Inv(t, st, later) && Improves(st.scope, f, v)
    requires Sound(t, st.scope[f := v])
    ensures Inv(t, State(st.scope[f := v], st.stack + [f]), later)
  {
    RecordGrows(st.scope, f, v);
    RootsKept(t, st.scope, st.scope[f := v]);
    CoveredKept(t, st.scope, Elems(st.stack) + later, f, v);
    ElemsPush(st.stack, f, later);
    ElemsPush(st.stack, f, {});
  }

  lemma FollowInv(t: Graph, st: State, rel: File, relTest: bool, i: nat, later: set<File>)
    requires WellFormed(t) && Inv(t, st, later) && rel in st.scope && rel in Files(t) && i < |t.links[rel]|
    requires relTest ==> st.scope[rel].test
    ensures Inv(t, FollowDecl(t, st, rel, relTest, t.links[rel][i]), later)
  {
    var d := t.links[rel][i];
    var v := Judge(t, rel, relTest, d);
    if Improves(st.scope, d.child, v) {
      JudgeSound(t, st.scope, rel, relTest, i, d.child);
      RecordSound(t, st.scope, d.child, v);
      PushInv(t, st, d.child, v, later);
    }
  }

  /** While a file taken off the stack is being served: its first `n` declarations are. */
  ghost predicate Serving(t: Graph, st0: State, st: State, rel: File, relTest: bool, n: nat, later: set<File>)
    requires WellFormed(t)
  {
    && rel in st.scope && rel in Files(t) && n <= |t.links[rel]|
    && Inv(t, st, later + {rel})
    && ServedTo(t, st.scope, rel, relTest, n)
    && (relTest ==> st.scope[rel].test)
    && (st.scope[rel].test == relTest || rel in Elems(st.stack))
    && (st == st0 || Work(t, st.scope) < Work(t, st0.scope))
  }

  lemma ServingStep(t: Graph, st0: State, st: State, rel: File, relTest: bool, n: nat, later: set<File>)
    requires WellFormed(t) && Serving(t, st0, st, rel, relTest, n, later) && n < |t.links[rel]|
    ensures Serving(t, st0, FollowDecl(t, st, rel, relTest, t.links[rel][n]), rel, relTest, n + 1, later)
  {
    var d := t.links[rel][n];
    var r := FollowDecl(t, st, rel, relTest, d);
    assert Inside(t, d);
    FollowInv(t, st, rel, relTest, n, later + {rel});
    FollowGrows(t, st, rel, relTest, d);
    FollowWorks(t, st, rel, relTest, d);
    ServedKept(t, st.scope, r.scope, rel, relTest, n);
  }

  lemma ServingDone(t: Graph, st0: State, st: State, rel: File, relTest: bool, later: set<File>)
    requires WellFormed(t) && rel in Files(t) && Serving(t, st0, st, rel, relTest, |t.links[rel]|, later)
    ensures Inv(t, st, later)
  {
    assert Elems(st.stack) + (later + {rel}) == Elems(st.stack) + later + {rel};
    FileDone(t, st.scope, Elems(st.stack) + later, rel, relTest);
  }

  method ServeFile(t: Graph, st0: State, rel: File, ghost later: set<File>) returns (st: State)
    requires WellFormed(t) && Inv(t, st0, later + {rel}) && rel in st0.scope && rel in Files(t)
    ensures Inv(t, st, later)
    ensures st == st0 || Work(t, st.scope) < Work(t, st0.scope)
  {
    st := st0;
    var relTest := st.scope[rel].test;
    var i := 0;
    while i < |t.links[rel]|
      invariant i <= |t.links[rel]|
      invariant Serving(t, st0, st, rel, relTest, i, later)
    {
      ServingStep(t, st0, st, rel, relTest, i, later);
      st := FollowDecl(t, st, rel, relTest, t.links[rel][i]);
      i := i + 1;
    }
    ServingDone(t, st0, st, rel, relTest, later);
  }

  lemma PopInv(t: Graph, st: State, later: set<File>)
    requires WellFormed(t) && Inv(t, st, later) && st.stack != []
    ensures var n := |st.stack| - 1;
            st.stack[n] in st.scope && st.stack[n] in Files(t) && Inv(t, State(st.scope, st.stack[..n]), later + {st.stack[n]})
  {
    var n := |st.stack| - 1;
    var rel := st.stack[n];
    assert st.stack == st.stack[..n] + [rel];
    ElemsPush(st.stack[..n], rel, later);
    ElemsPush(st.stack[..n], rel, {});
    assert rel in Elems(st.stack);
    assert Elems(st.stack[..n]) + (later + {rel}) == Elems(st.stack) + later;
  }

  /** The walk from one root. */
  method WalkFrom(t: Graph, scope0: Scope, root: File, ghost later: set<File>) returns (scope: Scope)
    requires WellFormed(t) && Inv(t, State(scope0, [root]), later)
    ensures Inv(t, State(scope, []), later)
  {
    var st := State(scope0, [root]);
    while st.stack != []
      invariant Inv(t, st, later)
      decreases Work(t, st.scope), |st.stack|
    {
      PopInv(t, st, later);
      var n := |st.stack| - 1;
      st := ServeFile(t, State(st.scope, st.stack[..n]), st.stack[n], later);
    }
    scope := st.scope;
    assert st == State(scope, []);
  }

  lemma RootSound(t: Graph, scope: Scope, f: File)
    requires WellFormed(t) && Sound(t, scope) && f in t.roots && f !in scope
    ensures Sound(t, scope[f := Verdict(InnerLine(t, f).Some?, CrateRoot)])
  {
    var p := Start(f);
    assert IsPath(t, p) && p.file == f;
    RecordSound(t, scope, f, Verdict(InnerLine(t, f).Some?, CrateRoot));
  }

  /** Every crate root enters the scope before any walk. */
  method SeedRoots(t: Graph, roots: seq<File>) returns (scope: Scope)
    requires WellFormed(t) && Elems(roots) == t.roots && Ordering.Distinct(roots)
    ensures Sound(t, scope) && RootsIn(t, scope) && scope.Keys == t.roots
  {
    scope := map[];
    for k := 0 to |roots|
      invariant Sound(t, scope)
      invariant forall f :: f in scope <==> f in roots[..k]
      invariant forall f :: f in scope ==> scope[f].test == InnerLine(t, f).Some?
    {
      assert roots[k] in Elems(roots);
      RootSound(t, scope, roots[k]);
      scope := scope[roots[k] := Verdict(InnerLine(t, roots[k]).Some?, CrateRoot)];
    }
    assert roots[..|roots|] == roots;
    forall f
      ensures f in t.roots <==> f in scope
    {
      assert f in Elems(roots) <==> f in roots;
    }
  }

  lemma NextRoot(t: Graph, scope: Scope, roots: seq<File>, k: nat)
    requires WellFormed(t) && k < |roots| && Elems(roots) == t.roots && Inv(t, State(scope, []), Elems(roots[k..]))
    ensures Inv(t, State(scope, [roots[k]]), Elems(roots[k + 1..]))
  {
    assert roots[k..] == [roots[k]] + roots[k + 1..];
    assert roots[k] in Elems(roots);
    assert Elems([roots[k]]) == {roots[k]};
    assert Elems([roots[k]]) + Elems(roots[k + 1..]) == Elems([]) + Elems(roots[k..]);
  }

  /** The scope of a graph: exactly the files that some crate root reaches, each test exactly when a gate stands
      on some path to it, each with a true reason; and the residue, exactly the files no root reaches. */
  method WalkScope(t: Graph) returns (scope: Scope, unresolved: seq<File>)
    requires WellFormed(t)
    ensures Exact(t, scope)
    ensures forall f :: f in unresolved <==> f in Files(t) && !Reachable(t, f)
    ensures Ordering.Sorted(unresolved, Ordering.StrLe) && Ordering.Distinct(unresolved)
  {
    var roots := Ordering.SortedSet(t.roots);
    assert Elems(roots) == t.roots;
    scope := SeedRoots(t, roots);
    assert Inv(t, State(scope, []), Elems(roots[0..])) by {
      assert roots[0..] == roots;
    }
    var k := 0;
    while k < |roots|
      invariant k <= |roots|
      invariant Inv(t, State(scope, []), Elems(roots[k..]))
    {
      NextRoot(t, scope, roots, k);
      scope := WalkFrom(t, scope, roots[k], Elems(roots[k + 1..]));
      k := k + 1;
    }
    assert Elems([]) + Elems(roots[k..]) == {};
    SettledIsExact(t, scope);
    unresolved := Ordering.SortedSet(set f | f in Files(t) && f !in scope);
  }
}

/** From scanned files to scopes: declarations are resolved to files and the graph is walked. */
module ScopeWalk {

  import opened Options
  import opened ModuleFiles
  import opened ScopeGraph
  import Ordering

  /** An out-of-line module declaration; `gated` says that its attributes carry a test gate. */
  datatype Decl = Decl(line: nat, gated: bool, name: string)

  /** What the scanner reads off each file: the line of its inner test attribute, if any, and its declarations. */
  datatype Source = Source(inner: Option<nat>, decls: seq<Decl>)

  type Tree = map<File, Source>

  /** The declarations of `rel` that resolve, in order. */
  function Links(files: set<File>, rel: File, ds: seq<Decl>): (r: seq<Link>)
    ensures forall l :: l in r ==> l.child in files
  {
    if ds == [] then []
    else
      var child := Resolve(files, ChildCandidates(rel, ds[0].name));
      var rest := Links(files, rel, ds[1..]);
      if child.None? then rest else [Link(ds[0].line, ds[0].gated, child.value)] + rest
  }

  function GraphOf(t: Tree): Graph
  {
    Graph(map f | f in t :: t[f].inner,
          map f | f in t :: Links(t.Keys, f, t[f].decls),
          set f | f in t && IsCrateRoot(f),
          set f | f in t && IsTestFile(f))
  }

  lemma GraphWellFormed(t: Tree)
    ensures WellFormed(GraphOf(t))
  {
    var g := GraphOf(t);
    forall f, i | f in g.links && 0 <= i < |g.links[f]|
      ensures Inside(g, g.links[f][i])
    {
      assert g.links[f][i] in Links(t.Keys, f, t[f].decls);
    }
  }

  /** `rel` declares `child`: some declaration has it as its first existing candidate. */
  ghost predicate Declared(t: Tree, rel: File, d: Decl, child: File)
  {
    rel in t && d in t[rel].decls && Resolve(t.Keys, ChildCandidates(rel, d.name)) == Some(child)
  }

  lemma {:induction false} LinksExact(files: set<File>, rel: File, ds: seq<Decl>, l: Link)
    ensures l in Links(files, rel, ds) <==>
      exists d :: d in ds && d.line == l.line && d.gated == l.gated && Resolve(files, ChildCandidates(rel, d.name)) == Some(l.child)
  {
    if ds != [] {
      LinksExact(files, rel, ds[1..], l);
      assert ds == [ds[0]] + ds[1..];
      var rest := Links(files, rel, ds[1..]);
      var child := Resolve(files, ChildCandidates(rel, ds[0].name));
      assert child.Some? ==> Links(files, rel, ds) == [Link(ds[0].line, ds[0].gated, child.value)] + rest;
    }
  }

  // ----- the verdicts on files -----

  /** A file is in scope when it is a crate root or a file in scope declares it, and nothing else is. */
  ghost predicate ReachClosed(t: Tree, reached: set<File>)
  {
    && (forall f :: f in t && IsCrateRoot(f) ==> f in reached)
    && (forall rel, d, child {:trigger Declared(t, rel, d, child)} :: rel in reached && Declared(t, rel, d, child) ==> child in reached)
  }

  ghost predicate Gates(t: Tree, tests: set<File>, rel: File, d: Decl, child: File)
  {
    child in t && (t[child].inner.Some? || d.gated || IsTestFile(child) || rel in tests)
  }

  /** The test rules: an inner attribute on a file in scope, a gated declaration, a test file name that is declared,
      and a declaration inside a test file. */
  ghost predicate TestClosed(t: Tree, reached: set<File>, tests: set<File>)
  {
    && (forall f :: f in t && IsCrateRoot(f) && t[f].inner.Some? ==> f in tests)
    && (forall rel, d, child {:trigger Declared(t, rel, d, child)} ::
          rel in reached && Declared(t, rel, d, child) && Gates(t, tests, rel, d, child) ==> child in tests)
  }

  function ScopeSet(scope: Scope): set<File>
  {
    set f | f in scope
  }

  function TestSet(scope: Scope): set<File>
  {
    set f | f in scope && scope[f].test
  }

  lemma LinkOfDecl(t: Tree, rel: File, d: Decl, child: File) returns (i: nat)
    requires Declared(t, rel, d, child)
    ensures var g := GraphOf(t);
            i < |g.links[rel]| && g.links[rel][i] == Link(d.line, d.gated, child)
  {
    var g := GraphOf(t);
    var l := Link(d.line, d.gated, child);
    LinksExact(t.Keys, rel, t[rel].decls, l);
    i :| 0 <= i < |g.links[rel]| && g.links[rel][i] == l;
  }

  lemma ExactIsClosed(t: Tree, scope: Scope)
    requires WellFormed(GraphOf(t)) && Exact(GraphOf(t), scope)
    ensures ReachClosed(t, ScopeSet(scope)) && TestClosed(t, ScopeSet(scope), TestSet(scope))
  {
    var g := GraphOf(t);
    forall f | f in t && IsCrateRoot(f)
      ensures f in scope && (t[f].inner.Some? ==> scope[f].test)
    {
      var p := Start(f);
      assert IsPath(g, p) && p.file == f;
      assert Reachable(g, f);
    }
    forall rel, d, child | rel in scope && Declared(t, rel, d, child)
      ensures child in scope
      ensures Gates(t, TestSet(scope), rel, d, child) ==> scope[child].test
    {
      var i := LinkOfDecl(t, rel, d, child);
      ReachStep(g, rel, i, child);
      if rel in TestSet(scope) {
        TestStep(g, rel, i, child);
      }
    }
  }

  lemma {:induction false} PathInClosed(t: Tree, reached: set<File>, tests: set<File>, p: Path)
    requires WellFormed(GraphOf(t)) && IsPath(GraphOf(t), p)
    requires ReachClosed(t, reached) && TestClosed(t, reached, tests)
    ensures p.file in reached && (Crosses(GraphOf(t), p) ==> p.file in tests)
  {
    var g := GraphOf(t);
    match p
    case Start(f) => {}
    case Follow(q, i, f) => {
      PathInClosed(t, reached, tests, q);
      var l := g.links[q.file][i];
      assert l in Links(t.Keys, q.file, t[q.file].decls);
      LinksExact(t.Keys, q.file, t[q.file].decls, l);
      var d :| d in t[q.file].decls && d.line == l.line && d.gated == l.gated
            && Resolve(t.Keys, ChildCandidates(q.file, d.name)) == Some(l.child);
      assert Declared(t, q.file, d, f);
      assert f in t;
    }
  }

  /** The verdicts are the least fixpoint of the rules: the scope and its test part are closed under them, and
      every pair of sets closed under them contains both. */
  lemma VerdictsAreLeast(t: Tree, scope: Scope, reached: set<File>, tests: set<File>)
    requires WellFormed(GraphOf(t)) && Exact(GraphOf(t), scope)
    ensures ReachClosed(t, ScopeSet(scope)) && TestClosed(t, ScopeSet(scope), TestSet(scope))
    ensures ReachClosed(t, reached) && TestClosed(t, reached, tests) ==> ScopeSet(scope) <= reached && TestSet(scope) <= tests
  {
    ExactIsClosed(t, scope);
    if ReachClosed(t, reached) && TestClosed(t, reached, tests) {
      var g := GraphOf(t);
      forall f | f in scope
        ensures f in reached && (scope[f].test ==> f in tests)
      {
        var p :| IsPath(g, p) && p.file == f;
        PathInClosed(t, reached, tests, p);
        if scope[f].test {
          var q :| IsPath(g, q) && q.file == f && Crosses(g, q);
          PathInClosed(t, reached, tests, q);
        }
      }
    }
  }

  method WalkTree(t: Tree) returns (scope: Scope, unresolved: seq<File>)
    ensures WellFormed(GraphOf(t)) && Exact(GraphOf(t), scope)
    ensures forall f :: f in unresolved <==> f in t && f !in scope
    ensures Ordering.Sorted(unresolved, Ordering.StrLe) && Ordering.Distinct(unresolved)
  {
    GraphWellFormed(t);
    scope, unresolved := WalkScope(GraphOf(t));
  }
}

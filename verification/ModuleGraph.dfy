/** The census resolver: which files of one crate count as test code, by growing a set to a fixpoint. */
module ModuleGraph {

  import opened Options
  import opened ModuleFiles
  import opened SetSizes

  type File = string

  /** An edge to the file a declaration names; gated when the declaration does not survive pruning. */
  datatype Edge = Edge(child: File, gated: bool)

  /** What is read off one file: the declared names in order, and the names that survive pruning. */
  datatype Source = Source(declared: seq<string>, live: set<string>)

  type Crate = map<File, Source>
  type Decls = map<File, seq<Edge>>

  function EdgesOf(files: set<File>, rel: File, names: seq<string>, live: set<string>): (r: seq<Edge>)
    ensures forall e :: e in r ==> e.child in files
  {
    if names == [] then []
    else
      var child := Resolve(files, DeclCandidates(rel, names[0]));
      var rest := EdgesOf(files, rel, names[1..], live);
      if child.None? then rest else [Edge(child.value, names[0] !in live)] + rest
  }

  function DeclsOf(c: Crate): Decls
  {
    map f | f in c :: EdgesOf(c.Keys, f, c[f].declared, c[f].live)
  }

  // ----- the meaning: chains of declarations behind a gate -----

  /** A chain of declarations: it starts at a gated one and follows any others. */
  datatype Chain = Gate(parent: File, index: nat, file: File) | Then(before: Chain, index: nat, file: File)

  ghost predicate IsEdge(d: Decls, parent: File, index: nat, child: File)
  {
    parent in d && index < |d[parent]| && d[parent][index].child == child
  }

  ghost predicate IsChain(d: Decls, c: Chain)
  {
    match c
    case Gate(p, i, f) => IsEdge(d, p, i, f) && d[p][i].gated
    case Then(q, i, f) => IsChain(d, q) && IsEdge(d, q.file, i, f)
  }

  ghost predicate BehindGate(d: Decls, f: File)
  {
    exists c :: IsChain(d, c) && c.file == f
  }

  // ----- the fixpoint loop -----

  ghost predicate Sound(d: Decls, tests: set<File>)
  {
    forall f :: f in tests ==> BehindGate(d, f)
  }

  ghost predicate Served(d: Decls, tests: set<File>, p: File, n: nat)
    requires p in d && n <= |d[p]|
  {
    forall i :: 0 <= i < n ==> d[p][i].gated || p in tests ==> d[p][i].child in tests
  }

  ghost predicate Closed(d: Decls, tests: set<File>)
  {
    forall p :: p in d ==> Served(d, tests, p, |d[p]|)
  }

  lemma EdgeBehind(d: Decls, p: File, i: nat, f: File)
    requires IsEdge(d, p, i, f) && (d[p][i].gated || BehindGate(d, p))
    ensures BehindGate(d, f)
  {
    if d[p][i].gated {
      var c := Gate(p, i, f);
      assert IsChain(d, c) && c.file == f;
    } else {
      var q :| IsChain(d, q) && q.file == p;
      var c := Then(q, i, f);
      assert IsChain(d, c) && c.file == f;
    }
  }

  lemma {:induction false} ChainHeld(d: Decls, tests: set<File>, c: Chain)
    requires Closed(d, tests) && IsChain(d, c)
    ensures c.file in tests
  {
    match c
    case Gate(p, i, f) => {
      assert Served(d, tests, p, |d[p]|);
    }
    case Then(q, i, f) => {
      ChainHeld(d, tests, q);
      assert Served(d, tests, q.file, |d[q.file]|);
    }
  }

  lemma ClosedIsExact(d: Decls, tests: set<File>)
    requires Closed(d, tests) && Sound(d, tests)
    ensures forall f :: f in tests <==> BehindGate(d, f)
  {
    forall f | BehindGate(d, f)
      ensures f in tests
    {
      var c :| IsChain(d, c) && c.file == f;
      ChainHeld(d, tests, c);
    }
  }

  /** One parent's edges. The parent's own verdict is read once, before its edges. */
  method Spread(d: Decls, p: File, tests0: set<File>) returns (tests: set<File>)
    requires p in d && Sound(d, tests0)
    ensures Sound(d, tests) && tests0 <= tests
    ensures tests == tests0 ==> Served(d, tests0, p, |d[p]|)
    ensures forall f :: f in tests && f !in tests0 ==> exists i :: IsEdge(d, p, i, f)
  {
    tests := tests0;
    var parentTest := p in tests;
    for i := 0 to |d[p]|
      invariant Sound(d, tests) && tests0 <= tests
      invariant forall j :: 0 <= j < i ==> d[p][j].gated || parentTest ==> d[p][j].child in tests
      invariant forall f :: f in tests && f !in tests0 ==> exists j :: IsEdge(d, p, j, f)
    {
      var e := d[p][i];
      if (e.gated || parentTest) && e.child !in tests {
        assert IsEdge(d, p, i, e.child);
        EdgeBehind(d, p, i, e.child);
        tests := tests + {e.child};
      }
    }
  }

  /** One pass over the parents, in any order. */
  method Pass(d: Decls, order: seq<File>, files: set<File>, tests0: set<File>) returns (tests: set<File>)
    requires (forall p :: p in d <==> p in order) && Sound(d, tests0) && tests0 <= files && Inside(d, files)
    ensures Sound(d, tests) && tests0 <= tests <= files
    ensures tests == tests0 ==> Closed(d, tests)
  {
    tests := tests0;
    for k := 0 to |order|
      invariant Sound(d, tests) && tests0 <= tests <= files
      invariant tests == tests0 ==> forall j :: 0 <= j < k ==> order[j] in d && Served(d, tests0, order[j], |d[order[j]]|)
    {
      tests := Spread(d, order[k], tests);
    }
    if tests == tests0 {
      forall p | p in d
        ensures Served(d, tests, p, |d[p]|)
      {
        assert p in order;
      }
    }
  }

  ghost predicate Inside(d: Decls, files: set<File>)
  {
    forall p, i: nat, f :: IsEdge(d, p, i, f) ==> f in files
  }

  /** The test files of a crate: exactly those behind a gated declaration, whatever the order in which parents
      are listed, after at most one pass more than there are files. */
  method TestFiles(d: Decls, order: seq<File>, files: set<File>) returns (tests: set<File>, passes: nat)
    requires (forall p :: p in d <==> p in order) && Inside(d, files)
    ensures forall f :: f in tests <==> BehindGate(d, f)
    ensures passes <= |files| + 1
  {
    tests, passes := {}, 0;
    var changed := true;
    while changed
      invariant Sound(d, tests) && tests <= files
      invariant changed ==> passes <= |tests|
      invariant !changed ==> passes <= |tests| + 1 && Closed(d, tests)
      decreases changed, |files| - |tests|
    {
      SubsetSize(tests, files);
      var next := Pass(d, order, files, tests);
      changed := next != tests;
      if changed {
        SubsetSize(tests, next);
        SubsetSize(next, files);
      }
      tests, passes := next, passes + 1;
    }
    SubsetSize(tests, files);
    ClosedIsExact(d, tests);
  }

  // ----- the whole resolver -----

  lemma DeclsInside(c: Crate)
    ensures Inside(DeclsOf(c), c.Keys)
  {
    var d := DeclsOf(c);
    forall p, i: nat, f | IsEdge(d, p, i, f)
      ensures f in c.Keys
    {
      assert d[p][i] in EdgesOf(c.Keys, p, c[p].declared, c[p].live);
    }
  }

  /** `rel` declares `name`, and the first existing candidate for it is `child`. */
  ghost predicate Declares(c: Crate, rel: File, name: string, child: File)
  {
    rel in c && name in c[rel].declared && Resolve(c.Keys, DeclCandidates(rel, name)) == Some(child)
  }

  /** An edge stands for a declared name that resolves, and is gated exactly if the name does not survive pruning. */
  lemma {:induction false} EdgesExactly(files: set<File>, rel: File, names: seq<string>, live: set<string>, e: Edge)
    ensures e in EdgesOf(files, rel, names, live)
       <==> exists n :: n in names && Resolve(files, DeclCandidates(rel, n)) == Some(e.child) && (e.gated <==> n !in live)
  {
    if names != [] {
      EdgesExactly(files, rel, names[1..], live, e);
      assert names == [names[0]] + names[1..];
      var child := Resolve(files, DeclCandidates(rel, names[0]));
      var rest := EdgesOf(files, rel, names[1..], live);
      assert child.Some? ==> EdgesOf(files, rel, names, live) == [Edge(child.value, names[0] !in live)] + rest;
    }
  }

  /** The two rules: a file declared under a name that does not survive pruning is test code, and so is every file
      declared from test code. */
  ghost predicate FollowsRules(c: Crate, tests: set<File>)
  {
    forall rel, name, child {:trigger Declares(c, rel, name, child)} ::
      Declares(c, rel, name, child) && (name !in c[rel].live || rel in tests) ==> child in tests
  }

  lemma ClosedFollowsRules(c: Crate, tests: set<File>)
    ensures Closed(DeclsOf(c), tests) <==> FollowsRules(c, tests)
  {
    var d := DeclsOf(c);
    if Closed(d, tests) {
      forall rel, name, child | Declares(c, rel, name, child) && (name !in c[rel].live || rel in tests)
        ensures child in tests
      {
        var e := Edge(child, name !in c[rel].live);
        EdgesExactly(c.Keys, rel, c[rel].declared, c[rel].live, e);
        var i :| 0 <= i < |d[rel]| && d[rel][i] == e;
        assert Served(d, tests, rel, |d[rel]|);
      }
    }
    if FollowsRules(c, tests) {
      forall p | p in d
        ensures Served(d, tests, p, |d[p]|)
      {
        ServedByRules(c, tests, p);
      }
    }
  }

  lemma ServedByRules(c: Crate, tests: set<File>, p: File)
    requires FollowsRules(c, tests) && p in c
    ensures Served(DeclsOf(c), tests, p, |DeclsOf(c)[p]|)
  {
    var d: Decls := DeclsOf(c);
    forall i | 0 <= i < |d[p]| && (d[p][i].gated || p in tests)
      ensures d[p][i].child in tests
    {
      EdgesExactly(c.Keys, p, c[p].declared, c[p].live, d[p][i]);
      var n :| n in c[p].declared && Resolve(c.Keys, DeclCandidates(p, n)) == Some(d[p][i].child) && (d[p][i].gated <==> n !in c[p].live);
      assert Declares(c, p, n, d[p][i].child);
    }
  }

  /** The answer is the least set that follows the two rules, whatever the order of the files. */
  method TestReachableFiles(c: Crate, order: seq<File>) returns (tests: set<File>, passes: nat)
    requires forall p :: p in c <==> p in order
    ensures forall f :: f in tests <==> BehindGate(DeclsOf(c), f)
    ensures FollowsRules(c, tests) && forall other :: FollowsRules(c, other) ==> tests <= other
    ensures tests <= c.Keys && passes <= |c.Keys| + 1
  {
    DeclsInside(c);
    tests, passes := TestFiles(DeclsOf(c), order, c.Keys);
    forall f | f in tests
      ensures f in c.Keys
    {
      ChainEnds(c, f);
    }
    LeastByRules(c, tests);
  }

  lemma LeastByRules(c: Crate, tests: set<File>)
    requires forall f :: f in tests <==> BehindGate(DeclsOf(c), f)
    ensures FollowsRules(c, tests) && forall other :: FollowsRules(c, other) ==> tests <= other
  {
    var d: Decls := DeclsOf(c);
    forall p | p in d
      ensures Served(d, tests, p, |d[p]|)
    {
      forall i | 0 <= i < |d[p]| && (d[p][i].gated || p in tests)
        ensures d[p][i].child in tests
      {
        EdgeBehind(d, p, i, d[p][i].child);
      }
    }
    ClosedFollowsRules(c, tests);
    forall other | FollowsRules(c, other)
      ensures tests <= other
    {
      ClosedFollowsRules(c, other);
      forall f | f in tests
        ensures f in other
      {
        var ch :| IsChain(d, ch) && ch.file == f;
        ChainHeld(d, other, ch);
      }
    }
  }

  lemma ChainEnds(c: Crate, f: File)
    requires BehindGate(DeclsOf(c), f)
    ensures f in c.Keys
  {
    DeclsInside(c);
    var ch :| IsChain(DeclsOf(c), ch) && ch.file == f;
    var p := if ch.Gate? then ch.parent else ch.before.file;
    assert IsEdge(DeclsOf(c), p, ch.index, f);
  }
}

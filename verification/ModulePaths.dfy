/** Paths as text: what the path rules of the two resolvers say about a file called `dir/stem.rs`. */
module ModulePaths {

  import opened Fields
  import opened ModuleFiles

  // ----- directory and file name -----

  lemma {:induction false} SplitPath(dir: string, f: string)
    requires '/' !in f
    ensures SplitOn(dir + "/" + f, '/') == SplitOn(dir, '/') + [f]
  {
    var s := dir + "/" + f;
    if dir == "" {
      assert s[1..] == f;
      SplitPlain(f, '/');
    } else {
      assert s[0] == dir[0] && s[1..] == dir[1..] + "/" + f;
      SplitPath(dir[1..], f);
    }
  }

  lemma NamedPath(dir: string, f: string)
    requires '/' !in f
    ensures BaseName(dir + "/" + f) == f && DirName(dir + "/" + f) == dir
  {
    SplitPath(dir, f);
    JoinSplit(dir, '/');
    assert (SplitOn(dir, '/') + [f])[..|SplitOn(dir, '/')|] == SplitOn(dir, '/');
  }

  lemma TopPath(f: string)
    requires '/' !in f
    ensures BaseName(f) == f && DirName(f) == ""
  {
    SplitPlain(f, '/');
  }

  /** Every path is a file name or a directory and a file name. */
  lemma {:induction false} LastSlash(rel: string) returns (dir: string, f: string)
    requires '/' in rel
    ensures rel == dir + "/" + f && '/' !in f
    decreases |rel|
  {
    var n := |rel| - 1;
    if rel[n] == '/' {
      dir, f := rel[..n], "";
    } else {
      var d, g := LastSlash(rel[..n]);
      dir, f := d, g + [rel[n]];
      assert rel == rel[..n] + [rel[n]];
    }
  }

  // ----- where declarations look -----

  predicate IsRootStem(stem: string)
  {
    stem == "lib" || stem == "main" || stem == "mod"
  }

  lemma RootNames(stem: string)
    ensures stem + ".rs" in {"lib.rs", "main.rs", "mod.rs"} <==> IsRootStem(stem)
  {
    var f := stem + ".rs";
    assert f[..|stem|] == stem;
    assert "lib.rs"[..3] == "lib" && "main.rs"[..4] == "main" && "mod.rs"[..3] == "mod";
    assert "lib" + ".rs" == "lib.rs" && "main" + ".rs" == "main.rs" && "mod" + ".rs" == "mod.rs";
  }

  lemma StemOf(stem: string)
    ensures (stem + ".rs")[..|stem + ".rs"| - 3] == stem
  {
  }

  /** A root or mod.rs declares beside itself, any other file into the directory that bears its name. */
  lemma CandidatesExactly(dir: string, stem: string, name: string)
    requires '/' !in stem
    ensures var base := if IsRootStem(stem) then dir else dir + "/" + stem;
            ChildCandidates(dir + "/" + (stem + ".rs"), name) == [base + "/" + name + ".rs", base + "/" + name + "/mod.rs"]
  {
    NamedPath(dir, stem + ".rs");
    RootNames(stem);
    StemOf(stem);
  }

  /** The census resolver does the same, and at the top leaves out the empty directory. */
  lemma DeclCandidatesExactly(dir: string, stem: string, name: string)
    requires '/' !in stem
    ensures var base := if IsRootStem(stem) then dir else dir + "/" + stem;
            DeclCandidates(dir + "/" + (stem + ".rs"), name)
              == if base == "" then [name + ".rs", name + "/mod.rs"] else [base + "/" + name + ".rs", base + "/" + name + "/mod.rs"]
    ensures DeclCandidates(stem + ".rs", name)
              == if IsRootStem(stem) || stem == "" then [name + ".rs", name + "/mod.rs"]
                 else [stem + "/" + name + ".rs", stem + "/" + name + "/mod.rs"]
  {
    var f := stem + ".rs";
    RootNames(stem);
    StemOf(stem);
    NamedPath(dir, f);
    SplitPath(dir, f);
    if !IsRootStem(stem) {
      DeclDirNested(dir + "/" + f);
    }
    TopPath(f);
    SplitPlain(f, '/');
    assert [f][..0] + [stem] == [stem];
  }

  // ----- test files -----

  ghost predicate Infix(s: string, x: string)
  {
    exists a, b :: s == a + x + b
  }

  lemma {:induction false} ContainsIsInfix(s: string, x: string)
    ensures Contains(s, x) <==> Infix(s, x)
  {
    if x <= s {
      assert s == "" + x + s[|x|..];
    } else if s != "" {
      ContainsIsInfix(s[1..], x);
      if a, b :| s[1..] == a + x + b {
        assert s == ([s[0]] + a) + x + b;
      }
      if a, b :| s == a + x + b && a != "" {
        assert s[1..] == a[1..] + x + b;
      }
    }
  }

  lemma SuffixChars(s: string, x: string)
    requires EndsWith(s, x)
    ensures forall k :: |s| - |x| <= k < |s| ==> s[k] in x
  {
    forall k | |s| - |x| <= k < |s|
      ensures s[k] in x
    {
      assert s[k] == s[|s| - |x|..][k - (|s| - |x|)];
    }
  }

  /** A suffix without a slash is a suffix of the file name. */
  lemma NameEnds(dir: string, f: string, x: string)
    requires '/' !in f && '/' !in x
    ensures EndsWith(dir + "/" + f, x) <==> EndsWith(f, x)
  {
    var rel := dir + "/" + f;
    assert rel[|dir|] == '/';
    if EndsWith(rel, x) { SuffixChars(rel, x); }
    if |x| <= |f| {
      assert rel[|rel| - |x|..] == f[|f| - |x|..];
    }
  }

  lemma NameIs(dir: string, f: string, x: string)
    requires '/' !in f && '/' !in x
    ensures EndsWith(dir + "/" + f, "/" + x) <==> f == x
  {
    var rel := dir + "/" + f;
    NamedPath(dir, f);
    if EndsWith(rel, "/" + x) {
      var k := |rel| - |x| - 1;
      assert rel == rel[..k] + ("/" + x) == rel[..k] + "/" + x;
      NamedPath(rel[..k], x);
    }
    if f == x { assert rel[|dir|..] == "/" + x; }
  }

  /** A path without a slash is below no directory. */
  lemma NoSlash(rel: string, x: string)
    requires '/' !in rel && '/' in x
    ensures !EndsWith(rel, x) && !Infix(rel, x)
  {
  }

  ghost predicate NamedTest(rel: string)
  {
    || Infix(rel, "/tests/") || EndsWith(rel, "_tests.rs")
    || rel == "tests.rs" || EndsWith(rel, "/tests.rs") || rel == "test_helpers.rs" || EndsWith(rel, "/test_helpers.rs")
  }

  lemma TestByName(rel: string, f: string)
    requires BaseName(rel) == f
    ensures IsTestFile(rel) <==> Infix(rel, "/tests/") || f == "tests.rs" || EndsWith(f, "_tests.rs") || f == "test_helpers.rs"
  {
    ContainsIsInfix(rel, "/tests/");
  }

  lemma TestBelow(rel: string, dir: string, f: string)
    requires '/' !in f && rel == dir + "/" + f
    ensures IsTestFile(rel) <==> NamedTest(rel)
  {
    NamedPath(dir, f);
    TestByName(rel, f);
    NameEnds(dir, f, "_tests.rs");
    LiteralNames(rel, dir, f);
  }

  lemma LiteralNames(rel: string, dir: string, f: string)
    requires '/' !in f && rel == dir + "/" + f
    ensures rel != "tests.rs" && rel != "test_helpers.rs"
    ensures (EndsWith(rel, "/tests.rs") <==> f == "tests.rs") && (EndsWith(rel, "/test_helpers.rs") <==> f == "test_helpers.rs")
  {
    assert rel[|dir|] == '/';
    NameIs(dir, f, "tests.rs");
    NameIs(dir, f, "test_helpers.rs");
    assert "/" + "tests.rs" == "/tests.rs" && "/" + "test_helpers.rs" == "/test_helpers.rs";
  }

  lemma TestAtTop(f: string)
    requires '/' !in f
    ensures IsTestFile(f) <==> NamedTest(f)
  {
    TopPath(f);
    TestByName(f, f);
    NoSlash(f, "/tests.rs");
    NoSlash(f, "/test_helpers.rs");
  }

  /** Test files by name: below a `tests` directory, or called tests.rs, test_helpers.rs or something_tests.rs. */
  lemma TestFileExactly(rel: string)
    ensures IsTestFile(rel) <==> NamedTest(rel)
  {
    if '/' in rel {
      var dir, f := LastSlash(rel);
      TestBelow(rel, dir, f);
    } else {
      TestAtTop(rel);
    }
  }

  // ----- crate roots -----

  predicate EndsDir(q: string)
  {
    q == "" || q[|q| - 1] == '/'
  }

  ghost predicate InSource(rel: string, q: string, f: string)
  {
    '/' !in f && (((f == "lib.rs" || f == "main.rs") && rel == q + "src/" + f) || rel == q + "src/bin/" + f)
  }

  /** `q` before src/lib.rs, src/main.rs or a file of src/bin. */
  ghost predicate RootBelow(rel: string, q: string)
  {
    EndsDir(q) && exists f :: InSource(rel, q, f)
  }

  lemma SplitBelow(q: string, d: string, f: string)
    requires EndsDir(q) && '/' !in d && '/' !in f
    ensures var parts := SplitOn(q + d + "/" + f, '/'); |parts| >= 2 && parts[|parts| - 1] == f && parts[|parts| - 2] == d
    ensures SplitOn(q + d, '/')[|SplitOn(q + d, '/')| - 1] == d
  {
    SplitPath(q + d, f);
    if q == "" {
      assert q + d == d;
      SplitPlain(d, '/');
    } else {
      var p := q[..|q| - 1];
      assert q + d == p + "/" + d;
      SplitPath(p, d);
    }
  }

  lemma SrcIsRoot(q: string, f: string)
    requires EndsDir(q) && (f == "lib.rs" || f == "main.rs")
    ensures IsCrateRoot(q + "src" + "/" + f)
  {
    SplitBelow(q, "src", f);
  }

  lemma SourceText(q: string, f: string)
    ensures q + "src/" + f == q + "src" + "/" + f
    ensures q + "src/bin/" + f == q + "src" + "/" + "bin" + "/" + f
  {
    assert "src/" == "src" + "/" && "src/bin/" == "src" + "/" + "bin" + "/";
  }

  lemma BelowIsRoot(rel: string, q: string)
    requires RootBelow(rel, q)
    ensures IsCrateRoot(rel)
  {
    var f :| InSource(rel, q, f);
    SourceText(q, f);
    if rel == q + "src/bin/" + f {
      BinBelow(q, f);
    } else {
      SrcIsRoot(q, f);
    }
  }

  lemma BinBelow(q: string, f: string)
    requires EndsDir(q) && '/' !in f
    ensures var parts := SplitOn(q + "src" + "/" + "bin" + "/" + f, '/');
            |parts| >= 3 && parts[|parts| - 2] == "bin" && parts[|parts| - 3] == "src"
  {
    SplitPath(q + "src" + "/" + "bin", f);
    SplitPath(q + "src", "bin");
    SplitBelow(q, "src", "bin");
  }

  lemma {:induction false} PartsHaveNoSlash(s: string)
    ensures forall i :: 0 <= i < |SplitOn(s, '/')| ==> '/' !in SplitOn(s, '/')[i]
  {
    if s != "" {
      PartsHaveNoSlash(s[1..]);
    }
  }

  /** The text before the last `n` parts of a path. */
  lemma {:induction false} JoinTail(parts: seq<string>, k: nat) returns (q: string)
    requires k < |parts|
    ensures EndsDir(q) && JoinOn(parts, '/') == q + JoinOn(parts[k..], '/')
    decreases k
  {
    if k == 0 {
      q := "";
      assert parts[0..] == parts;
      assert q + JoinOn(parts, '/') == JoinOn(parts, '/');
    } else {
      var p := JoinTail(parts[1..], k - 1);
      assert parts[1..][k - 1..] == parts[k..];
      q := parts[0] + "/" + p;
      assert JoinOn(parts, '/') == parts[0] + "/" + JoinOn(parts[1..], '/');
      assert q + JoinOn(parts[k..], '/') == parts[0] + "/" + (p + JoinOn(parts[k..], '/'));
    }
  }

  lemma TwoParts(a: string, b: string)
    ensures JoinOn([a, b], '/') == a + "/" + b
  {
    assert [a, b][1..] == [b];
  }

  lemma ThreeParts(a: string, b: string, c: string)
    ensures JoinOn([a, b, c], '/') == a + "/" + b + "/" + c
  {
    assert [a, b, c][1..] == [b, c];
    TwoParts(b, c);
  }

  lemma FileIsBelow(rel: string, parts: seq<string>, n: nat, f: string) returns (q: string)
    requires n == |parts| >= 2 && JoinOn(parts, '/') == rel && parts[n - 2] == "src"
    requires f == parts[n - 1] && '/' !in f && (f == "lib.rs" || f == "main.rs")
    ensures RootBelow(rel, q)
  {
    q := JoinTail(parts, n - 2);
    assert parts[n - 2..] == ["src", f];
    TwoParts("src", f);
    SourceText(q, f);
    assert q + ("src" + "/" + f) == q + "src" + "/" + f;
    assert InSource(rel, q, f);
  }

  lemma BinIsBelow(rel: string, parts: seq<string>, n: nat, f: string) returns (q: string)
    requires n == |parts| >= 3 && JoinOn(parts, '/') == rel && parts[n - 3] == "src" && parts[n - 2] == "bin"
    requires f == parts[n - 1] && '/' !in f
    ensures RootBelow(rel, q)
  {
    q := JoinTail(parts, n - 3);
    assert parts[n - 3..] == ["src", "bin", f];
    ThreeParts("src", "bin", f);
    SourceText(q, f);
    assert q + ("src" + "/" + "bin" + "/" + f) == q + "src" + "/" + "bin" + "/" + f;
    assert InSource(rel, q, f);
  }

  lemma RootIsBelow(rel: string) returns (q: string)
    requires IsCrateRoot(rel)
    ensures RootBelow(rel, q)
  {
    var parts := SplitOn(rel, '/');
    var n := |parts|;
    JoinSplit(rel, '/');
    PartsHaveNoSlash(rel);
    if n >= 2 && (parts[n - 1] == "lib.rs" || parts[n - 1] == "main.rs") && parts[n - 2] == "src" {
      q := FileIsBelow(rel, parts, n, parts[n - 1]);
    } else {
      q := BinIsBelow(rel, parts, n, parts[n - 1]);
    }
  }

  /** A crate root is src/lib.rs, src/main.rs or a file directly in src/bin, of any directory. */
  lemma CrateRootExactly(rel: string)
    ensures IsCrateRoot(rel) <==> exists q :: RootBelow(rel, q)
  {
    if IsCrateRoot(rel) {
      var q := RootIsBelow(rel);
    }
    if q :| RootBelow(rel, q) {
      BelowIsRoot(rel, q);
    }
  }
}

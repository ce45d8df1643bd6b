/** Where an out-of-line module declaration looks for its file, as each of the two resolvers does it. */
module ModuleFiles {

  import opened Options
  import opened Fields

  function BaseName(rel: string): string
  {
    var parts := SplitOn(rel, '/');
    parts[|parts| - 1]
  }

  function DirName(rel: string): string
  {
    var parts := SplitOn(rel, '/');
    if |parts| == 1 then "" else JoinOn(parts[..|parts| - 1], '/')
  }

  predicate Contains(s: string, part: string)
  {
    part <= s || (s != "" && Contains(s[1..], part))
  }

  predicate EndsWith(s: string, suffix: string)
  {
    |suffix| <= |s| && s[|s| - |suffix|..] == suffix
  }

  predicate IsTestFile(rel: string)
  {
    var name := BaseName(rel);
    Contains(rel, "/tests/") || name == "tests.rs" || EndsWith(name, "_tests.rs") || name == "test_helpers.rs"
  }

  predicate IsCrateRoot(rel: string)
  {
    var parts := SplitOn(rel, '/');
    var n := |parts|;
    || (n >= 2 && (parts[n - 1] == "lib.rs" || parts[n - 1] == "main.rs") && parts[n - 2] == "src")
    || (n >= 3 && parts[n - 2] == "bin" && parts[n - 3] == "src")
  }

  /** Roots and mod.rs declare beside themselves; any other file declares into its own directory. */
  predicate DeclaresBeside(rel: string)
  {
    BaseName(rel) in {"lib.rs", "main.rs", "mod.rs"}
  }

  /** The file name without its last three characters, the `.rs`. */
  function Stem(rel: string): string
  {
    var name := BaseName(rel);
    if |name| < 3 then "" else name[..|name| - 3]
  }

  // ----- the scope walk's candidates -----

  function ChildCandidates(rel: string, name: string): seq<string>
  {
    var base := if DeclaresBeside(rel) then DirName(rel) else DirName(rel) + "/" + Stem(rel);
    [base + "/" + name + ".rs", base + "/" + name + "/mod.rs"]
  }

  // ----- the census resolver's candidates -----

  function DeclDir(rel: string): string
  {
    var parts := SplitOn(rel, '/');
    if DeclaresBeside(rel) then DirName(rel)
    else JoinOn(parts[..|parts| - 1] + [Stem(rel)], '/')
  }

  function DeclCandidates(rel: string, name: string): seq<string>
  {
    var d := DeclDir(rel);
    if d == "" then [name + ".rs", name + "/mod.rs"]
    else [d + "/" + name + ".rs", d + "/" + name + "/mod.rs"]
  }

  /** The first candidate that is one of the files. */
  function Resolve(files: set<string>, candidates: seq<string>): (r: Option<string>)
    ensures r.Some? ==> r.value in files && r.value in candidates
    ensures r.Some? ==> exists i :: 0 <= i < |candidates| && candidates[i] == r.value && forall j :: 0 <= j < i ==> candidates[j] !in files
    ensures r.None? ==> forall c :: c in candidates ==> c !in files
  {
    if candidates == [] then None
    else if candidates[0] in files then Some(candidates[0])
    else
      var r := Resolve(files, candidates[1..]);
      assert forall i :: 0 <= i < |candidates[1..]| ==> candidates[1..][i] == candidates[i + 1];
      r
  }

  lemma {:induction false} JoinLast(parts: seq<string>, last: string, sep: char)
    requires |parts| >= 1
    ensures JoinOn(parts + [last], sep) == JoinOn(parts, sep) + [sep] + last
  {
    if |parts| > 1 {
      JoinLast(parts[1..], last, sep);
      assert (parts + [last])[1..] == parts[1..] + [last];
    } else {
      assert (parts + [last])[1..] == [last];
    }
  }

  lemma DeclDirNested(rel: string)
    requires !DeclaresBeside(rel) && |SplitOn(rel, '/')| > 1
    ensures DeclDir(rel) == DirName(rel) + "/" + Stem(rel)
  {
    var parts := SplitOn(rel, '/');
    JoinLast(parts[..|parts| - 1], Stem(rel), '/');
  }

  /** The two resolvers look in the same places exactly when the declaring file is not at the top: beside
      itself needs a named directory, into its own directory needs some directory separator. At the top the
      scope walk looks for an absolute path and the census resolver for a relative one. */
  lemma ResolversAgree(rel: string, name: string)
    ensures ChildCandidates(rel, name) == DeclCandidates(rel, name)
       <==> if DeclaresBeside(rel) then DirName(rel) != "" else '/' in rel
  {
    SplitCount(rel, '/');
    if !DeclaresBeside(rel) && '/' in rel {
      DeclDirNested(rel);
    } else if !DeclaresBeside(rel) || DirName(rel) == "" {
      assert |ChildCandidates(rel, name)[0]| > |DeclCandidates(rel, name)[0]|;
    }
  }

  lemma {:induction false} SplitCount(s: string, sep: char)
    ensures |SplitOn(s, sep)| > 1 <==> sep in s
  {
    if s != "" {
      SplitCount(s[1..], sep);
      assert s == [s[0]] + s[1..];
    }
  }
}

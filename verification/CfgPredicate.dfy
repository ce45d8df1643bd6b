/** Does a `cfg(...)` predicate gate test code?  The recursive evaluator over comma splits, the flat
    spelling table, and the predicate trees both are about. */
module CfgPredicate {

  import opened Options
  import opened Words
  import opened Extent
  import opened Delimiters

  // ----- strings -----

  /** `s.strip()`. */
  function StripLeft(s: string): (r: string)
    ensures |r| <= |s|
  {
    s[SkipWs(s, 0)..]
  }

  function StripRight(s: string): (r: string)
    ensures |r| <= |s|
  {
    if s != "" && IsSpace(s[|s| - 1]) then StripRight(s[..|s| - 1]) else s
  }

  function Strip(s: string): (r: string)
    ensures |r| <= |s|
  {
    StripRight(StripLeft(s))
  }

  /** `_split_top_commas`: the piece being read started at `start`, `depth` brackets deep. */
  function CommaSplit(s: string, i: nat, depth: int, start: nat): (parts: seq<string>)
    requires start <= i <= |s|
    ensures |parts| > 0 && forall k :: 0 <= k < |parts| ==> |parts[k]| <= |s|
    decreases |s| - i
  {
    if i == |s| then [s[start..]]
    else if IsOpen(s[i]) then CommaSplit(s, i + 1, depth + 1, start)
    else if IsClose(s[i]) then CommaSplit(s, i + 1, depth - 1, start)
    else if s[i] == ',' && depth == 0 then [s[start..i]] + CommaSplit(s, i + 1, depth, i + 1)
    else CommaSplit(s, i + 1, depth, start)
  }

  function SplitTop(s: string): (parts: seq<string>)
    ensures |parts| > 0 && forall k :: 0 <= k < |parts| ==> |parts[k]| <= |s|
  {
    CommaSplit(s, 0, 0, 0)
  }

  method SplitTopCommas(s: string) returns (parts: seq<string>)
    ensures parts == SplitTop(s)
  {
    parts := [];
    var depth, start := 0, 0;
    for i := 0 to |s|
      invariant start <= i && parts + CommaSplit(s, i, depth, start) == SplitTop(s)
    {
      if IsOpen(s[i]) {
        depth := depth + 1;
      } else if IsClose(s[i]) {
        depth := depth - 1;
      } else if s[i] == ',' && depth == 0 {
        assert parts + ([s[start..i]] + CommaSplit(s, i + 1, depth, i + 1))
            == (parts + [s[start..i]]) + CommaSplit(s, i + 1, depth, i + 1);
        parts := parts + [s[start..i]];
        start := i + 1;
      }
    }
    parts := parts + [s[start..]];
  }

  // ----- the evaluator -----

  /** `rest` is a parenthesised group. */
  predicate InParens(rest: string)
  {
    |rest| >= 2 && rest[0] == '(' && rest[|rest| - 1] == ')'
  }

  function AfterWord(e: string): (r: string)
    requires HasWord(e, 0)
    ensures |r| < |e|
  {
    StripLeft(e[WordEnd(e, 0)..])
  }

  predicate ElemGates(elem: string)
    decreases |elem|, 0
  {
    var e := Strip(elem);
    if !HasWord(e, 0) then false
    else
      var head := e[..WordEnd(e, 0)];
      if head == "test" then true
      else if head == "any" || head == "all" then
        var rest := AfterWord(e);
        InParens(rest) && Gates(rest[1..|rest| - 1])
      else false
  }

  predicate Gates(pred: string)
    decreases |pred|, 1
  {
    var parts := SplitTop(pred);
    exists i | 0 <= i < |parts| :: ElemGates(parts[i])
  }

  // ----- the spelling table -----

  datatype Spelling = OuterBare | CompoundAll | CompoundAny | NotHead | PlainNonTest

  /** `word\s*\(` at the front: index just past the parenthesis. */
  function CallOpen(s: string, word: string): Option<nat>
  {
    if |word| <= |s| && s[..|word|] == word then
      var k := SkipWs(s, |word|);
      if IsCh(s, k, '(') then Some(k + 1) else None
    else None
  }

  predicate IsCall(s: string)
  {
    CallOpen(s, "all").Some? || CallOpen(s, "any").Some? || CallOpen(s, "not").Some?
  }

  predicate BareTest(e: string)
  {
    HasWord(e, 0) && e[..WordEnd(e, 0)] == "test"
  }

  /** A flat `all(...)`/`any(...)`; None for nested calls. */
  function FlatVerdict(inner: string): Option<bool>
  {
    var parts := SplitTop(inner);
    if exists i | 0 <= i < |parts| :: IsCall(Strip(parts[i])) then None
    else Some(exists i | 0 <= i < |parts| :: BareTest(Strip(parts[i])))
  }

  predicate IsCompound(s: string)
  {
    (CallOpen(s, "all").Some? || CallOpen(s, "any").Some?) && s[|s| - 1] == ')'
  }

  function CompoundVerdict(s: string): Option<(Spelling, bool)>
    requires IsCompound(s)
  {
    var all := CallOpen(s, "all");
    var open := if all.Some? then all.value else CallOpen(s, "any").value;
    var verdict := FlatVerdict(s[open..|s| - 1]);
    if verdict.None? then None else Some((if all.Some? then CompoundAll else CompoundAny, verdict.value))
  }

  predicate IsReserved(w: string)
  {
    w == "test" || w == "all" || w == "any" || w == "not"
  }

  function SimpleVerdict(s: string): Option<(Spelling, bool)>
  {
    if CallOpen(s, "not").Some? then Some((NotHead, false))
    else if HasWord(s, 0) && !IsReserved(s[..WordEnd(s, 0)]) then Some((PlainNonTest, false))
    else None
  }

  /** `classify_cfg_spelling`; None is "outside the table". */
  function TableVerdict(pred: string): Option<(Spelling, bool)>
  {
    var s := Strip(pred);
    if s == "test" then Some((OuterBare, true))
    else if IsCompound(s) then CompoundVerdict(s)
    else SimpleVerdict(s)
  }
}

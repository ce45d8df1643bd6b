/** Bracket matching on lexed text: the single-kind depth counters of `_match_delim` and
    `_match_delim_strict` against a three-kind bracket stack. */
module Delimiters {

  import opened Options

  predicate IsOpen(c: char)
  {
    c == '(' || c == '[' || c == '{'
  }

  predicate IsClose(c: char)
  {
    c == ')' || c == ']' || c == '}'
  }

  function Closer(open: char): char
    requires IsOpen(open)
  {
    if open == '(' then ')' else if open == '[' then ']' else '}'
  }

  type Stack = seq<char>

  // ----- the reference: a stack of open brackets -----

  /** Effect of one character; None is a closer that does not fit. */
  function Push(stack: Stack, c: char): Option<Stack>
  {
    if IsOpen(c) then Some(stack + [c])
    else if !IsClose(c) then Some(stack)
    else if stack != [] && IsOpen(stack[|stack| - 1]) && Closer(stack[|stack| - 1]) == c then Some(stack[..|stack| - 1])
    else None
  }

  /** The stack after reading s[i..j). */
  function Run(s: string, i: nat, j: nat, stack: Stack): Option<Stack>
    requires i <= j <= |s|
    decreases j
  {
    if i == j then Some(stack)
    else
      var before := Run(s, i, j - 1, stack);
      if before.None? then None else Push(before.value, s[j - 1])
  }

  /** s[i..j) is well nested. */
  ghost predicate Balanced(s: string, i: nat, j: nat)
  {
    i <= j <= |s| && Run(s, i, j, []) == Some([])
  }

  lemma {:induction false} RunSplit(s: string, i: nat, k: nat, j: nat, stack: Stack)
    requires i <= k <= j <= |s|
    ensures Run(s, i, j, stack) == if Run(s, i, k, stack).None? then None else Run(s, k, j, Run(s, i, k, stack).value)
    decreases j
  {
    if k < j {
      RunSplit(s, i, k, j - 1, stack);
    }
  }

  /** Brackets below those the text touches do not matter. */
  lemma {:induction false} RunFrame(s: string, i: nat, j: nat, base: Stack, stack: Stack)
    requires i <= j <= |s| && Run(s, i, j, stack).Some?
    ensures Run(s, i, j, base + stack) == Some(base + Run(s, i, j, stack).value)
    decreases j
  {
    if i < j {
      RunFrame(s, i, j - 1, base, stack);
      PushFrame(base, Run(s, i, j - 1, stack).value, s[j - 1]);
    }
  }

  lemma PushFrame(base: Stack, stack: Stack, c: char)
    requires Push(stack, c).Some?
    ensures Push(base + stack, c) == Some(base + Push(stack, c).value)
  {
    var all := base + stack;
    if IsOpen(c) {
      assert all + [c] == base + (stack + [c]);
    } else if IsClose(c) {
      assert all[|all| - 1] == stack[|stack| - 1];
      assert all[..|all| - 1] == base + stack[..|stack| - 1];
    }
  }

  /** A balanced stretch leaves any stack as it was. */
  lemma BalancedKeeps(s: string, i: nat, j: nat, stack: Stack)
    requires Balanced(s, i, j)
    ensures Run(s, i, j, stack) == Some(stack)
  {
    RunFrame(s, i, j, stack, []);
    assert stack + [] == stack;
  }

  lemma BalancedConcat(s: string, i: nat, k: nat, j: nat)
    requires Balanced(s, i, k) && Balanced(s, k, j)
    ensures Balanced(s, i, j)
  {
    RunSplit(s, i, k, j, []);
  }

  /** The tail of a balanced stretch after a balanced head is balanced. */
  lemma BalancedTail(s: string, i: nat, k: nat, j: nat)
    requires Balanced(s, i, k) && Balanced(s, i, j) && k <= j
    ensures Balanced(s, k, j)
  {
    RunSplit(s, i, k, j, []);
  }

  lemma BalancedSnoc(s: string, i: nat, j: nat)
    requires Balanced(s, i, j) && j < |s| && !IsOpen(s[j]) && !IsClose(s[j])
    ensures Balanced(s, i, j + 1)
  {
  }

  lemma BalancedEmpty(s: string, i: nat)
    requires i <= |s|
    ensures Balanced(s, i, i)
  {
  }

  // ----- partners -----

  /** Where a stack that is non-empty at `j` first runs empty; None if it never does or the text is
      not nested from there. */
  function Partner(s: string, j: nat, stack: Stack): Option<nat>
    requires j <= |s| && stack != []
    decreases |s| - j
  {
    if j == |s| then None
    else
      var next := Push(stack, s[j]);
      if next.None? then None
      else if next.value == [] then Some(j)
      else Partner(s, j + 1, next.value)
  }

  /** The depth counter of one bracket kind: where `depth` open brackets of kind `open` are closed. */
  function CountMatch(s: string, j: nat, open: char, depth: nat): (r: Option<nat>)
    requires j <= |s| && IsOpen(open) && depth > 0
    ensures r.Some? ==> j <= r.value < |s| && s[r.value] == Closer(open)
    decreases |s| - j
  {
    if j == |s| then None
    else if s[j] == open then CountMatch(s, j + 1, open, depth + 1)
    else if s[j] == Closer(open) then (if depth == 1 then Some(j) else CountMatch(s, j + 1, open, depth - 1))
    else CountMatch(s, j + 1, open, depth)
  }

  ghost function CountOf(stack: Stack, open: char): nat
  {
    if stack == [] then 0
    else CountOf(stack[..|stack| - 1], open) + if stack[|stack| - 1] == open then 1 else 0
  }

  lemma {:induction false} CountBottom(stack: Stack, open: char)
    requires stack != [] && stack[0] == open
    ensures CountOf(stack, open) > 0
  {
    if |stack| > 1 {
      CountBottom(stack[..|stack| - 1], open);
    }
  }

  lemma CountPush(stack: Stack, open: char, c: char)
    requires IsOpen(open) && Push(stack, c).Some?
    ensures CountOf(Push(stack, c).value, open)
         == CountOf(stack, open) + (if c == open then 1 else if c == Closer(open) then -1 else 0)
  {
    if IsOpen(c) {
      assert (stack + [c])[..|stack|] == stack;
    }
  }

  /** Wherever the three-kind stack finds the partner, the one-kind counter finds the same. */
  lemma {:induction false} CounterFindsPartner(s: string, j: nat, open: char, stack: Stack)
    requires j <= |s| && IsOpen(open) && stack != [] && stack[0] == open
    requires Partner(s, j, stack).Some?
    ensures CountOf(stack, open) > 0 && CountMatch(s, j, open, CountOf(stack, open)) == Partner(s, j, stack)
    decreases |s| - j
  {
    CountBottom(stack, open);
    CountPush(stack, open, s[j]);
    var next := Push(stack, s[j]).value;
    if next == [] {
      assert |stack| == 1 && stack[..0] == [];
    } else {
      assert next[0] == open;
      CounterFindsPartner(s, j + 1, open, next);
    }
  }

  /** In well-nested text every open bracket has a partner. */
  lemma {:induction false} PartnerExists(s: string, j: nat, base: Stack, stack: Stack)
    requires j <= |s| && stack != [] && Run(s, j, |s|, base + stack) == Some([])
    ensures Partner(s, j, stack).Some?
    decreases |s| - j
  {
    assert j < |s|;
    RunSplit(s, j, j + 1, |s|, base + stack);
    assert Run(s, j, j, base + stack) == Some(base + stack);
    var c := s[j];
    assert Push(base + stack, c).Some?;
    PushAbove(base, stack, c);
    var next := Push(stack, c).value;
    if next != [] {
      PartnerExists(s, j + 1, base, next);
    }
  }

  lemma PushAbove(base: Stack, stack: Stack, c: char)
    requires stack != [] && Push(base + stack, c).Some?
    ensures Push(stack, c).Some? && Push(base + stack, c).value == base + Push(stack, c).value
  {
    var all := base + stack;
    assert all[|all| - 1] == stack[|stack| - 1];
    PushFrame(base, stack, c);
  }

  lemma {:induction false} PartnerBalanced(s: string, j: nat, i: nat, stack: Stack)
    requires i <= j <= |s| && stack != [] && Run(s, i, j, []) == Some(stack) && Partner(s, j, stack).Some?
    ensures j <= Partner(s, j, stack).value < |s| && Balanced(s, i, Partner(s, j, stack).value + 1)
    decreases |s| - j
  {
    var next := Push(stack, s[j]).value;
    assert Run(s, i, j + 1, []) == Some(next);
    if next != [] {
      PartnerBalanced(s, j + 1, i, next);
    }
  }

  // ----- the matchers -----

  /** Index just past the partner of the bracket at `i`, or the length if there is none. */
  function MatchLenient(s: string, i: nat): nat
    requires i < |s| && IsOpen(s[i])
  {
    var k := CountMatch(s, i + 1, s[i], 1);
    if k.Some? then k.value + 1 else |s|
  }

  /** The same, refusing an unmatched bracket. */
  function MatchStrict(s: string, i: nat): Option<nat>
    requires i < |s| && IsOpen(s[i])
  {
    var k := CountMatch(s, i + 1, s[i], 1);
    if k.Some? then Some(k.value + 1) else None
  }

  method MatchDelim(s: string, i: nat) returns (end: nat)
    requires i < |s| && IsOpen(s[i])
    ensures end == MatchLenient(s, i)
  {
    var open, close := s[i], Closer(s[i]);
    var depth := 0;
    var j := i;
    while j < |s|
      invariant i <= j <= |s|
      invariant j == i ==> depth == 0
      invariant j > i ==> depth > 0 && CountMatch(s, j, open, depth) == CountMatch(s, i + 1, open, 1)
    {
      if s[j] == open {
        depth := depth + 1;
      } else if s[j] == close {
        depth := depth - 1;
        if depth == 0 {
          return j + 1;
        }
      }
      j := j + 1;
    }
    return |s|;
  }

  /** None stands for the StripError. */
  method MatchDelimStrict(s: string, i: nat) returns (end: Option<nat>)
    requires i < |s| && IsOpen(s[i])
    ensures end == MatchStrict(s, i)
  {
    var open, close := s[i], Closer(s[i]);
    var depth := 0;
    var j := i;
    while j < |s|
      invariant i <= j <= |s|
      invariant j == i ==> depth == 0
      invariant j > i ==> depth > 0 && CountMatch(s, j, open, depth) == CountMatch(s, i + 1, open, 1)
    {
      if s[j] == open {
        depth := depth + 1;
      } else if s[j] == close {
        depth := depth - 1;
        if depth == 0 {
          return Some(j + 1);
        }
      }
      j := j + 1;
    }
    return None;
  }

  /** How many more brackets of kind `open` than of its closer stand in [i, j). */
  ghost function Surplus(s: string, i: nat, j: nat, open: char): int
    requires i <= j <= |s| && IsOpen(open)
  {
    if i == j then 0
    else Surplus(s, i, j - 1, open) + if s[j - 1] == open then 1 else if s[j - 1] == Closer(open) then -1 else 0
  }

  /** From `i` on the bracket is never closed before `j` or at it. */
  ghost predicate StaysOpen(s: string, i: nat, j: nat)
    requires i < |s| && IsOpen(s[i]) && j <= |s|
  {
    forall k :: i < k <= j ==> Surplus(s, i, k, s[i]) > 0
  }

  /** `e` is the first position at which openers and closers are level again. */
  ghost predicate ClosedAt(s: string, i: nat, e: nat)
    requires i < |s| && IsOpen(s[i])
  {
    i < e <= |s| && Surplus(s, i, e, s[i]) == 0 && StaysOpen(s, i, e - 1)
  }

  lemma {:induction false} CounterMeaning(s: string, i: nat, j: nat, depth: nat)
    requires i < |s| && IsOpen(s[i]) && i < j <= |s| && depth > 0 && Surplus(s, i, j, s[i]) == depth && StaysOpen(s, i, j)
    ensures var k := CountMatch(s, j, s[i], depth); if k.Some? then ClosedAt(s, i, k.value + 1) else StaysOpen(s, i, |s|)
    decreases |s| - j
  {
    if j < |s| {
      var next := Surplus(s, i, j + 1, s[i]);
      if next > 0 {
        CounterMeaning(s, i, j + 1, next);
      }
    }
  }

  lemma ClosedOnce(s: string, i: nat, e: nat, f: nat)
    requires i < |s| && IsOpen(s[i]) && ClosedAt(s, i, e) && ClosedAt(s, i, f)
    ensures e == f
  {
  }

  lemma MatchMeaning(s: string, i: nat)
    requires i < |s| && IsOpen(s[i])
    ensures if MatchStrict(s, i).Some? then ClosedAt(s, i, MatchStrict(s, i).value) else StaysOpen(s, i, |s|)
  {
    assert Surplus(s, i, i, s[i]) == 0 && Surplus(s, i, i + 1, s[i]) == 1;
    CounterMeaning(s, i, i + 1, 1);
  }

  /** Both forms return the first position where openers and closers of that kind are level, when there is one.
      When every non-empty prefix from the bracket on has more openers, the strict form refuses, and only then, and
      the lenient one returns the end. */
  lemma StrictVsLenient(s: string, i: nat)
    requires i < |s| && IsOpen(s[i])
    ensures MatchStrict(s, i).None? <==> StaysOpen(s, i, |s|)
    ensures forall e: nat :: MatchStrict(s, i) == Some(e) <==> ClosedAt(s, i, e)
    ensures MatchLenient(s, i) == if MatchStrict(s, i).Some? then MatchStrict(s, i).value else |s|
    ensures MatchStrict(s, i).Some? ==> i + 1 < MatchStrict(s, i).value <= |s| && s[MatchStrict(s, i).value - 1] == Closer(s[i])
  {
    MatchMeaning(s, i);
    if MatchStrict(s, i).Some? {
      var e := MatchStrict(s, i).value;
      assert !StaysOpen(s, i, |s|) by { assert Surplus(s, i, e, s[i]) == 0; }
      forall f: nat | ClosedAt(s, i, f)
        ensures f == e
      {
        ClosedOnce(s, i, e, f);
      }
    } else {
      assert forall e: nat :: !ClosedAt(s, i, e);
    }
  }

  /** On well-nested text the counter's answer is the true partner: the group it closes is balanced. */
  lemma MatchIsPartner(s: string, i: nat)
    requires Balanced(s, 0, |s|) && i < |s| && IsOpen(s[i])
    ensures Partner(s, i + 1, [s[i]]).Some?
    ensures MatchStrict(s, i) == Some(Partner(s, i + 1, [s[i]]).value + 1)
    ensures i + 1 < MatchStrict(s, i).value <= |s| && Balanced(s, i, MatchStrict(s, i).value)
  {
    RunSplit(s, 0, i, |s|, []);
    RunSplit(s, i, i + 1, |s|, Run(s, 0, i, []).value);
    var base := Run(s, 0, i, []).value;
    assert Run(s, i, i, base) == Some(base);
    PartnerExists(s, i + 1, base, [s[i]]);
    CounterFindsPartner(s, i + 1, s[i], [s[i]]);
    assert CountOf([s[i]], s[i]) == 1 by { assert [s[i]][..0] == []; }
    assert Run(s, i, i, []) == Some([]) && [] + [s[i]] == [s[i]];
    assert Run(s, i, i + 1, []) == Some([s[i]]);
    PartnerBalanced(s, i + 1, i, [s[i]]);
  }
}

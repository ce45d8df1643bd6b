/** Line continuations in string bodies: the backward backslash-run test of the interior-spaces scanner
    against the forward pair stepping of the lexer. */
module EscapeParity {
  import opened Lexer

  // ----- backward -----

  /** Start of the backslash run that ends just before `idx`. */
  function RunStart(body: string, idx: nat): (k: nat)
    requires idx <= |body|
    ensures k <= idx && (forall i :: k <= i < idx ==> body[i] == '\\') && (k == 0 || body[k - 1] != '\\')
  {
    if idx > 0 && body[idx - 1] == '\\' then RunStart(body, idx - 1) else idx
  }

  method FindRunStart(body: string, idx: nat) returns (k: nat)
    requires idx <= |body|
    ensures k == RunStart(body, idx)
  {
    k := idx;
    while k > 0 && body[k - 1] == '\\'
      invariant k <= idx && RunStart(body, k) == RunStart(body, idx)
    {
      k := k - 1;
    }
  }

  /** Odd run: the last backslash escapes the newline. */
  predicate Continued(body: string, idx: nat)
    requires idx <= |body|
  {
    (idx - RunStart(body, idx)) % 2 == 1
  }

  // ----- forward -----

  /** Stepping pairs from `j`, position `k` is taken as the second half of an escape pair. */
  ghost predicate SecondHalf(body: string, j: nat, k: nat)
    decreases |body| - j
  {
    j < |body| && (if body[j] == '\\' then k == j + 1 || SecondHalf(body, j + 2, k) else SecondHalf(body, j + 1, k))
  }

  /** Stepping pairs from `j` stands at `p`. */
  ghost predicate StandsAt(body: string, j: nat, p: nat)
    decreases |body| - j
  {
    j == p || (j < |body| && StandsAt(body, if body[j] == '\\' then j + 2 else j + 1, p))
  }

  /** Every position is stood at or is a second half, and second halves follow a backslash. */
  lemma {:induction false} StandOrSecond(body: string, j: nat, p: nat)
    requires j <= p <= |body|
    ensures StandsAt(body, j, p) || (0 < p && body[p - 1] == '\\')
    decreases p - j
  {
    if j < p {
      var next := if body[j] == '\\' then j + 2 else j + 1;
      if next <= p {
        StandOrSecond(body, next, p);
      }
    }
  }

  lemma {:induction false} SecondFrom(body: string, j: nat, p: nat, k: nat)
    requires StandsAt(body, j, p) && j <= p <= k
    ensures SecondHalf(body, j, k) <==> SecondHalf(body, p, k)
    decreases |body| - j
  {
    if j != p {
      var next := if body[j] == '\\' then j + 2 else j + 1;
      StandsAhead(body, next, p);
      SecondFrom(body, next, p, k);
    }
  }

  lemma {:induction false} StandsAhead(body: string, j: nat, p: nat)
    requires StandsAt(body, j, p)
    ensures j <= p
    decreases |body| - j
  {
    if j != p {
      StandsAhead(body, if body[j] == '\\' then j + 2 else j + 1, p);
    }
  }

  lemma {:induction false} SecondAhead(body: string, j: nat, k: nat)
    requires k <= j
    ensures !SecondHalf(body, j, k)
    decreases |body| - j
  {
    if j < |body| {
      SecondAhead(body, j + 1, k);
      SecondAhead(body, j + 2, k);
    }
  }

  /** Through a run of backslashes, pairs alternate. */
  lemma {:induction false} RunParity(body: string, k: nat, idx: nat)
    requires k <= idx < |body| && body[idx] != '\\' && forall i :: k <= i < idx ==> body[i] == '\\'
    ensures SecondHalf(body, k, idx) <==> (idx - k) % 2 == 1
    decreases idx - k
  {
    if k == idx {
      SecondAhead(body, k + 1, idx);
    } else if k + 1 < idx {
      RunParity(body, k + 2, idx);
    }
  }

  /** The backward parity test and the forward walk agree on every newline of every body. */
  lemma ParityIsPairing(body: string, idx: nat)
    requires idx < |body| && body[idx] == '\n'
    ensures Continued(body, idx) <==> SecondHalf(body, 0, idx)
  {
    var k := RunStart(body, idx);
    StandOrSecond(body, 0, k);
    SecondFrom(body, 0, k, idx);
    RunParity(body, k, idx);
  }

  // ----- the same steps inside the lexer -----

  /** The lexer's string scan from `j` takes position `k` as the second half of an escape pair. */
  ghost predicate EscapedInScan(text: string, j: nat, k: nat)
    decreases |text| - j
  {
    && j < |text| && text[j] != '"'
    && (if text[j] == '\\' then k == j + 1 || EscapedInScan(text, j + 2, k) else EscapedInScan(text, j + 1, k))
  }

  lemma {:induction false} ScanIsStepping(text: string, start: nat, j: nat, stop: nat, k: nat)
    requires start <= j && j <= |text| + 1 && stop == Min(StrEnd(text, j), |text|) && start <= k < stop
    requires start <= stop
    ensures EscapedInScan(text, j, k) <==> SecondHalf(text[start..stop], j - start, k - start)
    decreases |text| + 1 - j
  {
    var body := text[start..stop];
    if j < |text| && text[j] != '"' {
      assert j < StrEnd(text, j);
      assert body[j - start] == text[j];
      if text[j] == '\\' {
        if j + 2 <= |text| + 1 { ScanIsStepping(text, start, j + 2, stop, k); }
      } else {
        ScanIsStepping(text, start, j + 1, stop, k);
      }
    } else {
      SecondAhead(body, j - start, k - start);
    }
  }

  /** In every plain string of every text, a newline passes the scanner's continuation test exactly if
      the lexer read it as the second half of an escape pair. */
  lemma ContinuationAgreesWithLexer(text: string, t: Token, idx: nat)
    requires t in Tokens(text) && t.kind == PlainString
    requires t.bodyStart <= t.bodyEnd <= |text| && idx < t.bodyEnd - t.bodyStart && text[t.bodyStart + idx] == '\n'
    ensures Continued(text[t.bodyStart..t.bodyEnd], idx) <==> EscapedInScan(text, t.bodyStart, t.bodyStart + idx)
  {
    var body := text[t.bodyStart..t.bodyEnd];
    TokenFromStep(text, 0, t);
    assert body[idx] == text[t.bodyStart + idx];
    ParityIsPairing(body, idx);
    ScanIsStepping(text, t.bodyStart, t.bodyStart, t.bodyEnd, t.bodyStart + idx);
  }

  lemma {:induction false} TokenFromStep(text: string, i: nat, t: Token)
    requires i <= |text| && t in Walk(text, i) && t.kind == PlainString
    ensures t.start < |text| && OpensString(text, t.start) && t == StringStep(text, t.start)
    decreases |text| - i
  {
    StepShape(text, i);
    if t != Step(text, i) {
      TokenFromStep(text, Step(text, i).stop, t);
    }
  }

  // ----- the mixed-continuation arm -----

  /** A newline joined to the text before it by a backslash that is not the body's first character run. */
  ghost predicate MidContinuation(body: string, idx: nat)
  {
    idx < |body| && body[idx] == '\n' && SecondHalf(body, 0, idx) && exists i :: 0 <= i < idx && body[i] != '\\'
  }

  ghost predicate BareNewline(body: string, idx: nat)
  {
    idx < |body| && body[idx] == '\n' && !SecondHalf(body, 0, idx)
  }

  /** Flags a literal that both continues a line mid-string and carries a bare newline. */
  method MixedContinuation(body: string) returns (hit: bool)
    ensures hit <==> (exists i: nat :: MidContinuation(body, i)) && (exists i: nat :: BareNewline(body, i))
  {
    var mid := false;
    var idx := FindChar(body, '\n', 0);
    NextNewline(body, 0);
    while idx < |body| && !mid
      invariant idx <= |body| && (idx < |body| ==> body[idx] == '\n')
      invariant mid ==> exists i: nat :: MidContinuation(body, i)
      invariant !mid ==> forall i: nat :: i < idx ==> !MidContinuation(body, i)
      decreases |body| - idx, !mid
    {
      var start := FindRunStart(body, idx);
      ParityIsPairing(body, idx);
      RunStartMeaning(body, idx);
      if idx > 0 && Continued(body, idx) && start > 0 {
        mid := true;
        assert MidContinuation(body, idx);
      } else {
        NextNewline(body, idx + 1);
        idx := FindChar(body, '\n', idx + 1);
      }
    }
    if !mid {
      return false;
    }
    idx := FindChar(body, '\n', 0);
    NextNewline(body, 0);
    while idx < |body|
      invariant idx <= |body| && (idx < |body| ==> body[idx] == '\n')
      invariant forall i: nat :: i < idx ==> !BareNewline(body, i)
    {
      ParityIsPairing(body, idx);
      if idx == 0 || !Continued(body, idx) {
        assert BareNewline(body, idx);
        return true;
      }
      NextNewline(body, idx + 1);
      idx := FindChar(body, '\n', idx + 1);
    }
    return false;
  }

  lemma {:induction false} NextNewline(body: string, i: nat)
    requires i <= |body|
    ensures var r := FindChar(body, '\n', i);
            (r < |body| ==> body[r] == '\n') && forall k :: i <= k < r ==> body[k] != '\n'
    decreases |body| - i
  {
    if i < |body| && body[i] != '\n' { NextNewline(body, i + 1); }
  }

  lemma RunStartMeaning(body: string, idx: nat)
    requires idx <= |body|
    ensures RunStart(body, idx) > 0 <==> exists i :: 0 <= i < idx && body[i] != '\\'
  {
    var k := RunStart(body, idx);
    if k > 0 {
      assert body[k - 1] != '\\';
    }
  }
}

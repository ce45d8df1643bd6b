/** The comma scan of `extent_end`: what ends a field, variant, arm or statement, with generic argument lists counted. */
module CommaExtents {

  import opened Options
  import opened Words
  import opened Delimiters
  import opened Extent
  import opened ExtentProps

  // ----- angle brackets at the construct's own level -----

  /** The last character before `k` that is not whitespace belongs to an arrow, `-` or `=`. */
  ghost predicate ArrowBefore(s: string, k: nat)
    requires k <= |s|
  {
    k > 0 && if IsSpace(s[k - 1]) then ArrowBefore(s, k - 1) else IsArrow(s[k - 1])
  }

  predicate IsArrow(c: char)
  {
    c == '-' || c == '='
  }

  /** Directly before `k` stands what an argument list can follow: an identifier, `>`, `)`, `]`, `<` or `:`. */
  ghost predicate FollowsType(s: string, k: nat, cls: CharClass)
    requires k < |s|
  {
    k > 0 && (cls.alnum(s[k - 1]) || s[k - 1] in "_>)]<:")
  }

  /** The second half of a shift `<<` in the construct that starts at `i`. */
  ghost predicate ShiftTail(s: string, i: nat, k: nat, cls: CharClass)
    requires k <= |s|
    decreases k
  {
    i < k < |s| && s[k] == '<' && s[k - 1] == '<' && !ShiftTail(s, i, k - 1, cls) && !FollowsType(s, k - 1, cls)
  }

  /** What the character at `k` does to `a` open argument lists. */
  ghost function AngleStep(s: string, i: nat, k: nat, a: nat, cls: CharClass): nat
    requires k < |s|
  {
    if s[k] == '<' && !ShiftTail(s, i, k, cls) && FollowsType(s, k, cls) then a + 1
    else if s[k] == '>' && a > 0 && !ArrowBefore(s, k) then a - 1
    else a
  }

  /** Argument lists open before `k`; characters inside brackets do not count. */
  ghost function Angles(s: string, i: nat, k: nat, cls: CharClass): nat
    requires i <= k <= |s|
    decreases k
  {
    if i == k then 0
    else
      var a := Angles(s, i, k - 1, cls);
      if Balanced(s, i, k - 1) then AngleStep(s, i, k - 1, a, cls) else a
  }

  // ----- what ends the construct -----

  /** The brace group at `k` is followed by `else`. */
  predicate ElseFollows(s: string, k: nat)
    requires k < |s| && IsOpen(s[k])
  {
    WordIs(s, SkipWs(s, MatchLenient(s, k)), "else")
  }

  /** A character that ends the construct, or makes the scan give up, when `a` argument lists are open. */
  ghost predicate Stops(s: string, k: nat, a: nat)
    requires k < |s|
  {
    IsClose(s[k]) || s[k] == ';' || (s[k] == ',' && a == 0) || (s[k] == '{' && (a > 0 || !ElseFollows(s, k)))
  }

  ghost predicate CommaDecides(s: string, i: nat, k: nat, cls: CharClass)
  {
    i <= k < |s| && Balanced(s, i, k) && Stops(s, k, Angles(s, i, k, cls))
  }

  /** The end that the deciding character at `k` gives: refused inside an argument list; before an enclosing closer;
      past a brace group and its separator; past a separator. */
  ghost function CommaVerdict(s: string, k: nat, a: nat, attr: nat): Outcome
    requires k < |s|
  {
    if a > 0 then Refused(attr)
    else if IsClose(s[k]) then Ok(k)
    else if s[k] == '{' then
      var m := MatchLenient(s, k);
      var j := SkipWs(s, m);
      if IsCh(s, j, ',') || IsCh(s, j, ';') then Ok(j + 1) else Ok(m)
    else Ok(k + 1)
  }

  // ----- the scan's state -----

  /** `prev` tells an arrow from anything else, and is known once a list is open. */
  ghost predicate PrevFits(s: string, j: nat, a: nat, prev: Option<char>)
    requires j <= |s|
  {
    (a > 0 ==> prev.Some?) && (prev.Some? ==> (IsArrow(prev.value) <==> ArrowBefore(s, j)))
  }

  ghost predicate ScanAt(s: string, i: nat, j: nat, a: nat, prev: Option<char>, cls: CharClass)
  {
    i <= j <= |s| && Balanced(s, i, j) && !ShiftTail(s, i, j, cls) && a == Angles(s, i, j, cls) && PrevFits(s, j, a, prev)
  }

  ghost predicate NoneBetween(s: string, i: nat, j: nat, k: nat, cls: CharClass)
  {
    forall x :: j <= x < k ==> !CommaDecides(s, i, x, cls)
  }

  /** One character that is no bracket. */
  lemma CharStep(s: string, i: nat, j: nat, a: nat, prev: Option<char>, cls: CharClass)
    requires ScanAt(s, i, j, a, prev, cls) && j < |s| && !IsOpen(s[j]) && !IsClose(s[j])
    requires !(s[j] == '<' && !OpensAngle(s, j, cls) && IsCh(s, j + 1, '<'))
    ensures ScanAt(s, i, j + 1, AngleStep(s, i, j, a, cls), Prev(prev, s[j]), cls)
  {
    CharRun(s, i, j);
  }

  lemma ShiftStep(s: string, i: nat, j: nat, a: nat, prev: Option<char>, cls: CharClass)
    requires ScanAt(s, i, j, a, prev, cls) && j + 1 < |s| && s[j] == '<' && !OpensAngle(s, j, cls) && s[j + 1] == '<'
    ensures ScanAt(s, i, j + 2, a, Some('<'), cls) && NoneBetween(s, i, j, j + 2, cls)
  {
    CharRun(s, i, j);
    CharRun(s, i, j + 1);
    assert ShiftTail(s, i, j + 1, cls);
    assert Angles(s, i, j + 1, cls) == a;
  }

  lemma {:induction false} AnglesInside(s: string, i: nat, j: nat, k: nat, cls: CharClass)
    requires Nested(s) && Balanced(s, i, j) && j < |s| && IsOpen(s[j]) && MatchStrict(s, j).Some? && j < k <= MatchStrict(s, j).value <= |s|
    ensures Angles(s, i, k, cls) == Angles(s, i, j, cls) && NoneBetween(s, i, j + 1, k, cls)
    decreases k
  {
    if j + 1 < k {
      AnglesInside(s, i, j, k - 1, cls);
      OutsideLevel(s, i, j, k - 1);
    }
  }

  lemma OutsideLevel(s: string, i: nat, j: nat, k: nat)
    requires Nested(s) && Balanced(s, i, j) && j < |s| && IsOpen(s[j]) && MatchStrict(s, j).Some? && j < k < MatchStrict(s, j).value
    ensures !Balanced(s, i, k)
  {
    GroupInterior(s, j, k);
    if Balanced(s, i, k) {
      BalancedTail(s, i, j, k);
    }
  }

  lemma GroupStep(s: string, i: nat, j: nat, a: nat, prev: Option<char>, cls: CharClass)
    requires Nested(s) && ScanAt(s, i, j, a, prev, cls) && j < |s| && IsOpen(s[j])
    ensures MatchStrict(s, j).Some? && j + 1 < MatchStrict(s, j).value <= |s| && MatchLenient(s, j) == MatchStrict(s, j).value
    ensures ScanAt(s, i, MatchStrict(s, j).value, a, Some(')'), cls) && NoneBetween(s, i, j + 1, MatchStrict(s, j).value, cls)
  {
    MatchIsPartner(s, j);
    StrictVsLenient(s, j);
    GroupRun(s, i, j);
    AnglesInside(s, i, j, MatchStrict(s, j).value, cls);
  }

  /** Whitespace and words leave everything as it is. */
  lemma {:induction false} PlainSteps(s: string, i: nat, j: nat, k: nat, a: nat, prev: Option<char>, cls: CharClass) returns (last: Option<char>)
    requires ScanAt(s, i, j, a, prev, cls) && j <= k <= |s| && forall x :: j <= x < k ==> IsSpace(s[x]) || IsWordChar(s[x])
    ensures ScanAt(s, i, k, a, last, cls) && NoneBetween(s, i, j, k, cls)
    decreases k - j
  {
    if j < k {
      CharStep(s, i, j, a, prev, cls);
      last := PlainSteps(s, i, j + 1, k, a, Prev(prev, s[j]), cls);
    } else {
      last := prev;
    }
  }

  // ----- the scan follows the specification -----

  /** `k` is the first deciding position from `j` on, or the end if there is none. */
  ghost predicate FirstFrom(s: string, i: nat, j: nat, k: nat, cls: CharClass)
  {
    j <= k <= |s| && (k < |s| ==> CommaDecides(s, i, k, cls)) && NoneBetween(s, i, j, k, cls)
  }

  lemma FirstMoves(s: string, i: nat, j: nat, n: nat, k: nat, cls: CharClass)
    requires FirstFrom(s, i, j, k, cls) && j <= n <= |s| && NoneBetween(s, i, j, n, cls)
    ensures FirstFrom(s, i, n, k, cls)
  {
  }

  lemma StopsHere(s: string, j: nat, a: nat, prev: Option<char>, attr: nat, cls: CharClass)
    requires j < |s| && Stops(s, j, a) && (IsOpen(s[j]) ==> MatchStrict(s, j).Some?)
    ensures CommaEnd(s, j, a, prev, attr, cls) == CommaVerdict(s, j, a, attr)
  {
  }

  /** Past a brace group and the `else` behind it. */
  lemma ElseStep(s: string, i: nat, j: nat, a: nat, prev: Option<char>, cls: CharClass) returns (e: nat)
    requires Nested(s) && ScanAt(s, i, j, a, prev, cls) && j < |s| && s[j] == '{' && a == 0 && ElseFollows(s, j)
    ensures j < e <= |s| && ScanAt(s, i, e, 0, Some('e'), cls) && NoneBetween(s, i, j, e, cls)
    ensures forall attr :: CommaEnd(s, j, 0, prev, attr, cls) == CommaEnd(s, e, 0, Some('e'), attr, cls)
  {
    GroupStep(s, i, j, a, prev, cls);
    var m := MatchStrict(s, j).value;
    e := WordEnd(s, SkipWs(s, m));
    ElseSteps(s, i, m, cls);
    ElseResumes(s, j, m, prev, cls);
  }

  lemma ElseSteps(s: string, i: nat, m: nat, cls: CharClass)
    requires ScanAt(s, i, m, 0, Some(')'), cls) && WordIs(s, SkipWs(s, m), "else")
    ensures var e := WordEnd(s, SkipWs(s, m)); ScanAt(s, i, e, 0, Some('e'), cls) && NoneBetween(s, i, m, e, cls)
  {
    var w := SkipWs(s, m);
    var e := WordEnd(s, w);
    var last := PlainSteps(s, i, m, e, 0, Some(')'), cls);
    assert s[e - 1] == s[w..e][3] == 'e';
  }

  lemma ElseResumes(s: string, j: nat, m: nat, prev: Option<char>, cls: CharClass)
    requires j < m <= |s| && s[j] == '{' && MatchStrict(s, j) == Some(m) && WordIs(s, SkipWs(s, m), "else")
    ensures forall attr :: CommaEnd(s, j, 0, prev, attr, cls) == CommaEnd(s, WordEnd(s, SkipWs(s, m)), 0, Some('e'), attr, cls)
  {
  }

  /** One turn of the scan at a character that does not stop it. */
  lemma CommaTurn(s: string, i: nat, j: nat, a: nat, prev: Option<char>, cls: CharClass)
    returns (n: nat, b: nat, next: Option<char>)
    requires Nested(s) && ScanAt(s, i, j, a, prev, cls) && j < |s| && !Stops(s, j, a)
    ensures j < n <= |s| && ScanAt(s, i, n, b, next, cls) && NoneBetween(s, i, j, n, cls)
    ensures forall attr :: CommaEnd(s, j, a, prev, attr, cls) == CommaEnd(s, n, b, next, attr, cls)
  {
    if s[j] == '{' {
      n := ElseStep(s, i, j, a, prev, cls);
      b, next := 0, Some('e');
    } else if IsOpen(s[j]) {
      GroupStep(s, i, j, a, prev, cls);
      n, b, next := MatchStrict(s, j).value, a, Some(')');
    } else if s[j] == '<' && !OpensAngle(s, j, cls) && IsCh(s, j + 1, '<') {
      ShiftStep(s, i, j, a, prev, cls);
      n, b, next := j + 2, a, Some('<');
    } else {
      CharStep(s, i, j, a, prev, cls);
      n, b, next := j + 1, AngleStep(s, i, j, a, cls), Prev(prev, s[j]);
    }
  }

  lemma {:induction false} CommaScan(s: string, i: nat, j: nat, a: nat, prev: Option<char>, attr: nat, k: nat, cls: CharClass)
    requires Nested(s) && ScanAt(s, i, j, a, prev, cls) && FirstFrom(s, i, j, k, cls)
    ensures CommaEnd(s, j, a, prev, attr, cls)
         == if k == |s| then Refused(attr) else CommaVerdict(s, k, Angles(s, i, k, cls), attr)
    decreases |s| - j
  {
    if j < |s| {
      if Stops(s, j, a) {
        assert CommaDecides(s, i, j, cls) && k == j;
        if IsOpen(s[j]) { MatchIsPartner(s, j); }
        StopsHere(s, j, a, prev, attr, cls);
      } else {
        var n, b, next := CommaTurn(s, i, j, a, prev, cls);
        FirstMoves(s, i, j, n, k, cls);
        CommaScan(s, i, n, b, next, attr, k, cls);
      }
    }
  }

  /** Commas inside brackets or argument lists never end a field, variant, arm or statement, and `>` in an arrow
      closes no list: the first deciding character at the construct's own level fixes the extent.  With none the scan
      refuses. */
  lemma CommaEndExact(s: string, i: nat, attr: nat, k: nat, cls: CharClass)
    requires Nested(s) && i <= |s| && FirstFrom(s, i, i, k, cls)
    ensures CommaEnd(s, i, 0, None, attr, cls)
         == if k == |s| then Refused(attr) else CommaVerdict(s, k, Angles(s, i, k, cls), attr)
  {
    BalancedEmpty(s, i);
    CommaScan(s, i, i, 0, None, attr, k, cls);
  }
}

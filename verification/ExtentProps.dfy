/** Every extent the walk returns is well nested and ends where the token walk stands. */
module ExtentProps {

  import opened Options
  import opened Delimiters
  import opened Extent
  import Lexer
  import LexerBlanking
  import LexedShape

  ghost predicate Nested(s: string)
  {
    Balanced(s, 0, |s|)
  }

  predicate Firm(c: char)
  {
    c == ';' || c == ',' || IsClose(c)
  }

  /** `end` is just past a terminator or right before the enclosing closer. */
  ghost predicate Anchored(s: string, end: nat)
  {
    (0 < end <= |s| && Firm(s[end - 1])) || (end < |s| && IsClose(s[end]))
  }

  // ----- runs without brackets -----

  lemma {:induction false} PlainRun(s: string, start: nat, i: nat, j: nat)
    requires i <= j <= |s| && Balanced(s, start, i)
    requires forall k :: i <= k < j ==> !IsOpen(s[k]) && !IsClose(s[k])
    ensures Balanced(s, start, j)
    decreases j
  {
    if i < j {
      PlainRun(s, start, i, j - 1);
      BalancedSnoc(s, start, j - 1);
    }
  }

  lemma SpaceRun(s: string, start: nat, i: nat)
    requires Balanced(s, start, i)
    ensures i <= |s| && Balanced(s, start, SkipWs(s, i))
  {
    PlainRun(s, start, i, SkipWs(s, i));
  }

  lemma WordRun(s: string, start: nat, i: nat)
    requires Balanced(s, start, i) && HasWord(s, i)
    ensures Balanced(s, start, WordEnd(s, i))
  {
    PlainRun(s, start, i, WordEnd(s, i));
  }

  lemma CharRun(s: string, start: nat, i: nat)
    requires Balanced(s, start, i) && i < |s| && !IsOpen(s[i]) && !IsClose(s[i])
    ensures Balanced(s, start, i + 1)
  {
    BalancedSnoc(s, start, i);
  }

  /** Stepping over a matched group. */
  lemma GroupRun(s: string, start: nat, i: nat)
    requires Nested(s) && Balanced(s, start, i) && i < |s| && IsOpen(s[i]) && MatchStrict(s, i).Some?
    ensures var end := MatchStrict(s, i).value;
            i + 1 < end <= |s| && Balanced(s, start, end) && IsClose(s[end - 1])
  {
    MatchIsPartner(s, i);
    BalancedConcat(s, start, i, MatchStrict(s, i).value);
    StrictVsLenient(s, i);
  }

  lemma {:induction false} PathRun(s: string, start: nat, j: nat)
    requires Balanced(s, start, j)
    ensures j <= |s| && Balanced(s, start, PathEnd(s, j))
    decreases |s| - j
  {
    SpaceRun(s, start, j);
    var k := SkipWs(s, j);
    if IsCh(s, k, ':') && IsCh(s, k + 1, ':') {
      CharRun(s, start, k);
      CharRun(s, start, k + 1);
      SpaceRun(s, start, k + 2);
      var w := SkipWs(s, k + 2);
      if HasWord(s, w) {
        WordRun(s, start, w);
        PathRun(s, start, WordEnd(s, w));
      }
    }
  }

  // ----- the three extents -----

  lemma {:induction false} ItemEndNested(s: string, start: nat, i: nat, body: bool, attr: nat)
    requires Nested(s) && Balanced(s, start, i) && ItemEnd(s, i, body, attr).Ok?
    ensures var end := ItemEnd(s, i, body, attr).end;
            i < end <= |s| && Balanced(s, start, end) && Anchored(s, end)
    decreases |s| - i
  {
    if IsOpen(s[i]) {
      GroupRun(s, start, i);
      if !(s[i] == '{' && body) {
        ItemEndNested(s, start, MatchStrict(s, i).value, body, attr);
      }
    } else {
      CharRun(s, start, i);
      if s[i] != ';' {
        ItemEndNested(s, start, i + 1, body, attr);
      }
    }
  }

  lemma MacroGroupRun(s: string, start: nat, i: nat)
    requires Balanced(s, start, i)
    ensures i <= |s| && Balanced(s, start, MacroGroup(s, i))
  {
    SpaceRun(s, start, i);
    var b := SkipWs(s, i);
    if IsCh(s, b, '!') {
      CharRun(s, start, b);
      SpaceRun(s, start, b + 1);
      MacroNameRun(s, start, SkipWs(s, b + 1));
    } else {
      MacroNameRun(s, start, b);
    }
  }

  lemma MacroNameRun(s: string, start: nat, c: nat)
    requires Balanced(s, start, c)
    ensures Balanced(s, start, if HasWord(s, c) then SkipWs(s, WordEnd(s, c)) else c)
  {
    if HasWord(s, c) {
      WordRun(s, start, c);
      SpaceRun(s, start, WordEnd(s, c));
    }
  }

  lemma MacroEndNested(s: string, start: nat, i: nat, attr: nat)
    requires Nested(s) && Balanced(s, start, i) && MacroEnd(s, i, attr).Ok?
    ensures var end := MacroEnd(s, i, attr).end;
            i < end <= |s| && Balanced(s, start, end) && Anchored(s, end)
  {
    MacroGroupRun(s, start, i);
    var g := MacroGroup(s, i);
    GroupRun(s, start, g);
    var m := MatchStrict(s, g).value;
    SpaceRun(s, start, m);
    var j := SkipWs(s, m);
    if IsCh(s, j, ';') {
      CharRun(s, start, j);
    }
  }

  ghost predicate EndsNested(s: string, start: nat, i: nat, end: nat)
  {
    i <= end <= |s| && Balanced(s, start, end) && Anchored(s, end)
  }

  lemma {:induction false} CommaEndNested(s: string, start: nat, i: nat, angle: nat, prev: Option<char>, attr: nat, cls: CharClass)
    requires Nested(s) && Balanced(s, start, i) && CommaEnd(s, i, angle, prev, attr, cls).Ok?
    ensures EndsNested(s, start, i, CommaEnd(s, i, angle, prev, attr, cls).end)
    decreases |s| - i, 1
  {
    if s[i] == '{' {
      CommaBraceNested(s, start, i, angle, prev, attr, cls);
    } else if IsOpen(s[i]) {
      GroupRun(s, start, i);
      CommaEndNested(s, start, MatchStrict(s, i).value, angle, Some(')'), attr, cls);
    } else if !IsClose(s[i]) {
      CommaCharNested(s, start, i, angle, prev, attr, cls);
    }
  }

  lemma {:induction false} CommaBraceNested(s: string, start: nat, i: nat, angle: nat, prev: Option<char>, attr: nat, cls: CharClass)
    requires Nested(s) && Balanced(s, start, i) && CommaEnd(s, i, angle, prev, attr, cls).Ok? && s[i] == '{'
    ensures EndsNested(s, start, i, CommaEnd(s, i, angle, prev, attr, cls).end)
    decreases |s| - i, 0
  {
    BraceInComma(s, start, i, angle, attr, cls);
    var j := SkipWs(s, MatchStrict(s, i).value);
    if WordIs(s, j, "else") && !(IsCh(s, j, ',') || IsCh(s, j, ';')) {
      CommaEndNested(s, start, WordEnd(s, j), angle, Some('e'), attr, cls);
    }
  }

  lemma {:induction false} CommaCharNested(s: string, start: nat, i: nat, angle: nat, prev: Option<char>, attr: nat, cls: CharClass)
    requires Nested(s) && Balanced(s, start, i) && CommaEnd(s, i, angle, prev, attr, cls).Ok? && !IsOpen(s[i]) && !IsClose(s[i])
    ensures EndsNested(s, start, i, CommaEnd(s, i, angle, prev, attr, cls).end)
    decreases |s| - i, 0
  {
    var c := s[i];
    CharRun(s, start, i);
    if c == '<' && OpensAngle(s, i, cls) {
      CommaEndNested(s, start, i + 1, angle + 1, Some(c), attr, cls);
    } else if c == '<' && IsCh(s, i + 1, '<') {
      CharRun(s, start, i + 1);
      CommaEndNested(s, start, i + 2, angle, Some('<'), attr, cls);
    } else if ClosesAngle(c, prev, angle) {
      CommaEndNested(s, start, i + 1, angle - 1, Some(c), attr, cls);
    } else if !((c == ',' || c == ';') && angle == 0) {
      CommaEndNested(s, start, i + 1, angle, Prev(prev, c), attr, cls);
    }
  }

  lemma BraceInComma(s: string, start: nat, i: nat, angle: nat, attr: nat, cls: CharClass)
    requires Nested(s) && Balanced(s, start, i) && i < |s| && s[i] == '{' && MatchStrict(s, i).Some?
    ensures var m := MatchStrict(s, i).value;
            && i < m <= |s| && Balanced(s, start, m) && Anchored(s, m)
            && var j := SkipWs(s, m);
            && (IsCh(s, j, ',') || IsCh(s, j, ';') ==> Balanced(s, start, j + 1) && Anchored(s, j + 1))
            && (HasWord(s, j) ==> Balanced(s, start, WordEnd(s, j)))
  {
    GroupRun(s, start, i);
    var m := MatchStrict(s, i).value;
    SpaceRun(s, start, m);
    var j := SkipWs(s, m);
    if IsCh(s, j, ',') || IsCh(s, j, ';') {
      CharRun(s, start, j);
    }
    if HasWord(s, j) {
      WordRun(s, start, j);
    }
  }

  // ----- classification skips only balanced text -----

  /** The ABI string after `extern`: its interior is blank in lexed text. */
  lemma AbiRun(text: string, start: nat, e: nat, j: nat)
    requires 0 < e <= j < |text|
    requires var s := Lexer.Lexed(text, true);
             && s[e - 1] == 'n' && j == SkipWs(s, e) && s[j] == '"' && Balanced(s, start, j)
    ensures var s := Lexer.Lexed(text, true);
            var k := Lexer.FindChar(s, '"', j + 1);
            k < |s| ==> Balanced(s, start, k + 1)
  {
    var s := Lexer.Lexed(text, true);
    LexedShape.SolidIsCode(text, e - 1);
    LexedShape.SpaceIsVisited(text, e, j);
    LexedShape.QuotedSkip(text, j);
    CharRun(s, start, j);
    var k := Lexer.FindChar(s, '"', j + 1);
    PlainRun(s, start, j + 1, k);
    if k < |s| {
      FindCharHit(s, '"', j + 1);
      CharRun(s, start, k);
    }
  }

  lemma {:induction false} FindCharHit(s: string, c: char, i: nat)
    requires i <= |s| && Lexer.FindChar(s, c, i) < |s|
    ensures s[Lexer.FindChar(s, c, i)] == c
    decreases |s| - i
  {
    if s[i] != c { FindCharHit(s, c, i + 1); }
  }

  lemma ExternEndsInN(s: string, b: nat, e: nat)
    requires b < e <= |s| && s[b..e] == "extern"
    ensures s[e - 1] == 'n'
  {
    assert |s[b..e]| == 6;
    assert s[b..e][5] == 'n';
  }

  /** Where a turn of the qualifier loop leads, the text stays balanced. */
  ghost predicate TurnNested(s: string, start: nat, t: Turn)
  {
    match t
    case Again(at) => Balanced(s, start, at)
    case Known(h) => h.Head? ==> Balanced(s, start, h.at)
  }

  lemma PubNested(s: string, start: nat, e: nat)
    requires Nested(s) && Balanced(s, start, e)
    ensures e <= |s| && TurnNested(s, start, PubTurn(s, e))
  {
    SpaceRun(s, start, e);
    var p := SkipWs(s, e);
    if IsCh(s, p, '(') && MatchStrict(s, p).Some? {
      GroupRun(s, start, p);
    }
  }

  lemma ConstNested(s: string, start: nat, e: nat)
    requires Balanced(s, start, e)
    ensures e <= |s| && TurnNested(s, start, ConstTurn(s, e))
  {
    SpaceRun(s, start, e);
  }

  lemma ExternNested(text: string, start: nat, b: nat, e: nat)
    requires b < e <= |text| && Balanced(Lexer.Lexed(text, true), start, e) && Lexer.Lexed(text, true)[b..e] == "extern"
    ensures TurnNested(Lexer.Lexed(text, true), start, ExternTurn(Lexer.Lexed(text, true), e))
  {
    var s := Lexer.Lexed(text, true);
    SpaceRun(s, start, e);
    var j := SkipWs(s, e);
    ExternEndsInN(s, b, e);
    if IsCh(s, j, '"') {
      AbiRun(text, start, e, j);
    } else if HasWord(s, j) {
      WordRun(s, start, j);
    }
  }

  lemma PathNested(s: string, start: nat, b: nat)
    requires Balanced(s, start, b) && HasWord(s, b)
    ensures PathHead(s, b).Head? && Balanced(s, start, PathHead(s, b).at)
  {
    WordRun(s, start, b);
    PathRun(s, start, WordEnd(s, b));
    SpaceRun(s, start, PathEnd(s, WordEnd(s, b)));
    var k := SkipWs(s, PathEnd(s, WordEnd(s, b)));
    if IsCh(s, k, '!') {
      CharRun(s, start, k);
    }
  }

  lemma WordNested(text: string, start: nat, b: nat)
    requires Nested(Lexer.Lexed(text, true)) && HasWord(Lexer.Lexed(text, true), b)
    requires Balanced(Lexer.Lexed(text, true), start, b)
    ensures TurnNested(Lexer.Lexed(text, true), start, WordTurn(Lexer.Lexed(text, true), b))
  {
    var s := Lexer.Lexed(text, true);
    WordRun(s, start, b);
    var e := WordEnd(s, b);
    if s[b..e] == "extern" {
      ExternNested(text, start, b, e);
    } else {
      OtherNested(s, start, b, e);
    }
  }

  lemma OtherNested(s: string, start: nat, b: nat, e: nat)
    requires Nested(s) && HasWord(s, b) && e == WordEnd(s, b) && s[b..e] != "extern"
    requires Balanced(s, start, b) && Balanced(s, start, e)
    ensures TurnNested(s, start, WordTurn(s, b))
  {
    var w := s[b..e];
    if w == "pub" {
      PubNested(s, start, e);
    } else if w == "const" {
      ConstNested(s, start, e);
    } else if !IsQualifier(w) && w != "macro_rules" && !IsSemiItem(w) && !IsBodyItem(w) {
      PathNested(s, start, b);
    }
  }

  lemma {:induction false} ClassifyNested(text: string, start: nat, i: nat, cls: CharClass)
    requires Nested(Lexer.Lexed(text, true)) && i <= |text| && Balanced(Lexer.Lexed(text, true), start, i)
    requires Classify(Lexer.Lexed(text, true), i, cls).Head?
    ensures Balanced(Lexer.Lexed(text, true), start, Classify(Lexer.Lexed(text, true), i, cls).at)
    decreases |text| - i
  {
    var s := Lexer.Lexed(text, true);
    SpaceRun(s, start, i);
    var b := SkipWs(s, i);
    if IsWordStart(s[b]) {
      WordNested(text, start, b);
      var t := WordTurn(s, b);
      if t.Again? {
        ClassifyNested(text, start, t.at, cls);
      }
    }
  }

  /** On well-nested lexed text every extent is well nested and ends at a terminator. */
  lemma ExtentNested(text: string, start: nat, attr: nat, i: nat, cls: CharClass)
    requires Nested(Lexer.Lexed(text, true)) && i <= |text| && Balanced(Lexer.Lexed(text, true), start, i)
    requires ExtentEnd(Lexer.Lexed(text, true), attr, i, cls).Ok?
    ensures var s := Lexer.Lexed(text, true);
            var end := ExtentEnd(s, attr, i, cls).end;
            i <= end <= |text| && Balanced(s, start, end) && Anchored(s, end)
  {
    var s := Lexer.Lexed(text, true);
    ClassifyNested(text, start, i, cls);
    var h := Classify(s, i, cls);
    match h.mode
    case Macro => MacroEndNested(s, start, h.at, attr);
    case Comma => CommaEndNested(s, start, h.at, 0, None, attr, cls);
    case Semi => ItemEndNested(s, start, h.at, false, attr);
    case Body => ItemEndNested(s, start, h.at, true, attr);
  }

  // ----- every extent ends at a terminator, nested or not -----

  lemma {:induction false} ItemEndAnchored(s: string, i: nat, body: bool, attr: nat)
    requires i <= |s| && ItemEnd(s, i, body, attr).Ok?
    ensures i < ItemEnd(s, i, body, attr).end <= |s| && Anchored(s, ItemEnd(s, i, body, attr).end)
    decreases |s| - i
  {
    if IsOpen(s[i]) {
      StrictVsLenient(s, i);
      if !(s[i] == '{' && body) {
        ItemEndAnchored(s, MatchStrict(s, i).value, body, attr);
      }
    } else if s[i] != ';' {
      ItemEndAnchored(s, i + 1, body, attr);
    }
  }

  lemma MacroEndAnchored(s: string, i: nat, attr: nat)
    requires i <= |s| && MacroEnd(s, i, attr).Ok?
    ensures i < MacroEnd(s, i, attr).end <= |s| && Anchored(s, MacroEnd(s, i, attr).end)
  {
    StrictVsLenient(s, MacroGroup(s, i));
  }

  lemma {:induction false} CommaEndAnchored(s: string, i: nat, angle: nat, prev: Option<char>, attr: nat, cls: CharClass)
    requires i <= |s| && CommaEnd(s, i, angle, prev, attr, cls).Ok?
    ensures var end := CommaEnd(s, i, angle, prev, attr, cls).end; i <= end <= |s| && Anchored(s, end)
    decreases |s| - i
  {
    var c := s[i];
    if IsOpen(c) {
      StrictVsLenient(s, i);
      var m := MatchStrict(s, i).value;
      if c != '{' {
        CommaEndAnchored(s, m, angle, Some(')'), attr, cls);
      } else {
        var j := SkipWs(s, m);
        if WordIs(s, j, "else") && !(IsCh(s, j, ',') || IsCh(s, j, ';')) {
          CommaEndAnchored(s, WordEnd(s, j), angle, Some('e'), attr, cls);
        }
      }
    } else if c == '<' && OpensAngle(s, i, cls) {
      CommaEndAnchored(s, i + 1, angle + 1, Some(c), attr, cls);
    } else if c == '<' && IsCh(s, i + 1, '<') {
      CommaEndAnchored(s, i + 2, angle, Some('<'), attr, cls);
    } else if ClosesAngle(c, prev, angle) {
      CommaEndAnchored(s, i + 1, angle - 1, Some(c), attr, cls);
    } else if !IsClose(c) && !((c == ',' || c == ';') && angle == 0) {
      CommaEndAnchored(s, i + 1, angle, Prev(prev, c), attr, cls);
    }
  }

  /** On every lexed text, nested or not, an extent ends just past a terminator or right before a closer. */
  lemma ExtentAnchored(s: string, attr: nat, i: nat, cls: CharClass)
    requires i <= |s| && ExtentEnd(s, attr, i, cls).Ok?
    ensures i <= ExtentEnd(s, attr, i, cls).end <= |s| && Anchored(s, ExtentEnd(s, attr, i, cls).end)
  {
    var h := Classify(s, i, cls);
    match h.mode
    case Macro => MacroEndAnchored(s, h.at, attr);
    case Comma => CommaEndAnchored(s, h.at, 0, None, attr, cls);
    case Semi => ItemEndAnchored(s, h.at, false, attr);
    case Body => ItemEndAnchored(s, h.at, true, attr);
  }

  /** Anchored positions are positions of the token walk. */
  lemma AnchoredIsVisited(text: string, end: nat)
    requires Anchored(Lexer.Lexed(text, true), end)
    ensures end <= |text| && LexerBlanking.Visits(text, 0, end)
  {
    var s := Lexer.Lexed(text, true);
    if 0 < end <= |s| && Firm(s[end - 1]) {
      LexedShape.SolidIsCode(text, end - 1);
    } else {
      LexedShape.SolidIsCode(text, end);
    }
  }

  // ----- what an item extent means -----

  /** `k` is at the item's own nesting level and holds a character that decides its extent. */
  ghost predicate Decides(s: string, i: nat, body: bool, k: nat)
  {
    i <= k < |s| && Balanced(s, i, k) && (s[k] == ';' || IsClose(s[k]) || (body && s[k] == '{'))
  }

  /** Inside a group nothing is at the outer level. */
  lemma GroupInterior(s: string, i: nat, k: nat)
    requires Nested(s) && i < |s| && IsOpen(s[i]) && MatchStrict(s, i).Some? && i < k < MatchStrict(s, i).value
    ensures !Balanced(s, i, k)
  {
    MatchIsPartner(s, i);
    assert Run(s, i, i, []) == Some([]) && [] + [s[i]] == [s[i]];
    assert Run(s, i, i + 1, []) == Some([s[i]]);
    StillOpen(s, i, i + 1, [s[i]], k);
  }

  lemma {:induction false} StillOpen(s: string, i: nat, j: nat, stack: Stack, k: nat)
    requires i <= j <= k <= |s| && stack != [] && Run(s, i, j, []) == Some(stack)
    requires Partner(s, j, stack).Some? && k <= Partner(s, j, stack).value
    ensures Run(s, i, k, []) != Some([])
    decreases |s| - j
  {
    if j < k {
      var next := Push(stack, s[j]).value;
      assert Run(s, i, j + 1, []) == Some(next);
      StillOpen(s, i, j + 1, next, k);
    }
  }

  lemma DecidesSkip(s: string, i: nat, m: nat, body: bool, k: nat)
    requires Balanced(s, i, m) && i <= m <= k
    ensures Decides(s, m, body, k) <==> Decides(s, i, body, k)
  {
    if k < |s| {
      if Balanced(s, m, k) { BalancedConcat(s, i, m, k); }
      if Balanced(s, i, k) { BalancedTail(s, i, m, k); }
    }
  }

  /** `;` and `}` inside brackets never end an item: the extent is fixed by the first deciding
      character at the item's own level, and the walk refuses exactly when that is the enclosing
      closer or there is none. */
  lemma {:induction false} ItemEndExact(s: string, i: nat, body: bool, attr: nat, k: nat)
    requires Nested(s) && i <= |s|
    requires Decides(s, i, body, k) && forall j :: i <= j < k ==> !Decides(s, i, body, j)
    ensures ItemEnd(s, i, body, attr)
         == if s[k] == ';' then Ok(k + 1) else if IsClose(s[k]) then Refused(attr) else Ok(MatchLenient(s, k))
    decreases |s| - i
  {
    BalancedEmpty(s, i);
    if IsOpen(s[i]) {
      MatchIsPartner(s, i);
      var m := MatchStrict(s, i).value;
      StrictVsLenient(s, i);
      if body && s[i] == '{' {
        assert Decides(s, i, body, i);
        assert k == i;
      } else {
        if i < k < m { GroupInterior(s, i, k); }
        assert m <= k;
        ItemEndSkip(s, i, m, body, k);
        ItemEndExact(s, m, body, attr, k);
      }
    } else if k > i {
      assert !Decides(s, i, body, i);
      BalancedSnoc(s, i, i);
      ItemEndSkip(s, i, i + 1, body, k);
      ItemEndExact(s, i + 1, body, attr, k);
    }
  }

  lemma ItemEndSkip(s: string, i: nat, m: nat, body: bool, k: nat)
    requires Balanced(s, i, m) && i <= m <= k && Decides(s, i, body, k)
    requires forall j :: i <= j < k ==> !Decides(s, i, body, j)
    ensures Decides(s, m, body, k) && forall j :: m <= j < k ==> !Decides(s, m, body, j)
  {
    DecidesSkip(s, i, m, body, k);
    forall j | m <= j < k
      ensures !Decides(s, m, body, j)
    {
      DecidesSkip(s, i, m, body, j);
    }
  }

  lemma {:induction false} ItemEndNone(s: string, i: nat, body: bool, attr: nat)
    requires Nested(s) && i <= |s| && forall j :: i <= j < |s| ==> !Decides(s, i, body, j)
    ensures ItemEnd(s, i, body, attr) == Refused(attr)
    decreases |s| - i
  {
    if i < |s| {
      BalancedEmpty(s, i);
      assert !Decides(s, i, body, i);
      var m := i + 1;
      if IsOpen(s[i]) {
        MatchIsPartner(s, i);
        m := MatchStrict(s, i).value;
      } else {
        BalancedSnoc(s, i, i);
      }
      forall j | m <= j < |s|
        ensures !Decides(s, m, body, j)
      {
        DecidesSkip(s, i, m, body, j);
      }
      ItemEndNone(s, m, body, attr);
    }
  }
}

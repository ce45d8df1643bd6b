/** The extent walk and the pruning pass as the loops they are. */
module ExtentRun {

  import opened Options
  import opened Delimiters
  import opened Words
  import opened Extent
  import opened CfgPredicate
  import opened Prune
  import Lexer
  import LexerRun

  method SkipSpaces(s: string, start: nat) returns (i: nat)
    requires start <= |s|
    ensures i == SkipWs(s, start)
  {
    i := start;
    while i < |s| && IsSpace(s[i])
      invariant start <= i <= |s| && SkipWs(s, i) == SkipWs(s, start)
    {
      i := i + 1;
    }
  }

  /** End of the `::ident` segment behind `j`, if there is one. */
  function SegmentEnd(s: string, j: nat): (r: Option<nat>)
    requires j <= |s|
    ensures r.Some? ==> j < r.value <= |s|
  {
    var k := SkipWs(s, j);
    if IsCh(s, k, ':') && IsCh(s, k + 1, ':') && HasWord(s, SkipWs(s, k + 2)) then Some(WordEnd(s, SkipWs(s, k + 2)))
    else None
  }

  method NextSegment(s: string, j: nat) returns (r: Option<nat>)
    requires j <= |s|
    ensures r == SegmentEnd(s, j)
  {
    var k := SkipSpaces(s, j);
    if !(IsCh(s, k, ':') && IsCh(s, k + 1, ':')) {
      return None;
    }
    k := SkipSpaces(s, k + 2);
    if !HasWord(s, k) {
      return None;
    }
    return Some(WordEnd(s, k));
  }

  lemma PathStep(s: string, j: nat, next: Option<nat>)
    requires j <= |s| && next == SegmentEnd(s, j)
    ensures PathEnd(s, j) == if next.None? then j else PathEnd(s, next.value)
  {
  }

  method ScanPath(s: string, start: nat) returns (j: nat)
    requires start <= |s|
    ensures j == PathEnd(s, start)
  {
    j := start;
    while true
      invariant start <= j <= |s| && PathEnd(s, j) == PathEnd(s, start)
      decreases |s| - j
    {
      var next := NextSegment(s, j);
      PathStep(s, j, next);
      if next.None? {
        return;
      }
      j := next.value;
    }
  }

  method ClassifyConstruct(s: string, start: nat, cls: CharClass) returns (h: Head)
    requires start <= |s|
    ensures h == Classify(s, start, cls)
  {
    var i := start;
    while true
      invariant start <= i <= |s| && Classify(s, i, cls) == Classify(s, start, cls)
      decreases |s| - i
    {
      var b := SkipSpaces(s, i);
      if b == |s| {
        return NoHead(b);
      }
      if !HasWord(s, b) {
        return SymbolHead(s, b, cls);
      }
      var turn := WordTurn(s, b);
      if turn.Known? {
        return turn.head;
      }
      i := turn.at;
    }
  }

  method ItemExtent(s: string, start: nat, body: bool, attr: nat) returns (r: Outcome)
    requires start <= |s|
    ensures r == ItemEnd(s, start, body, attr)
  {
    var i := start;
    while i < |s|
      invariant start <= i <= |s| && ItemEnd(s, i, body, attr) == ItemEnd(s, start, body, attr)
      decreases |s| - i
    {
      if IsOpen(s[i]) {
        var m := MatchDelimStrict(s, i);
        if m.None? {
          return Refused(i);
        }
        if s[i] == '{' && body {
          return Ok(m.value);
        }
        i := m.value;
      } else if s[i] == ';' {
        return Ok(i + 1);
      } else if IsClose(s[i]) {
        return Refused(attr);
      } else {
        i := i + 1;
      }
    }
    return Refused(attr);
  }

  method CommaExtent(s: string, start: nat, attr: nat, cls: CharClass) returns (r: Outcome)
    requires start <= |s|
    ensures r == CommaEnd(s, start, 0, None, attr, cls)
  {
    var i, angle, prev := start, 0, None;
    while i < |s|
      invariant start <= i <= |s| && angle >= 0
      invariant CommaEnd(s, i, angle, prev, attr, cls) == CommaEnd(s, start, 0, None, attr, cls)
      decreases |s| - i
    {
      var c := s[i];
      if c == '{' {
        var m := MatchDelimStrict(s, i);
        if m.None? {
          return Refused(i);
        }
        if angle > 0 {
          return Refused(attr);
        }
        var j := SkipSpaces(s, m.value);
        if IsCh(s, j, ',') || IsCh(s, j, ';') {
          return Ok(j + 1);
        }
        if !WordIs(s, j, "else") {
          return Ok(m.value);
        }
        i, prev := WordEnd(s, j), Some('e');
      } else if IsOpen(c) {
        var m := MatchDelimStrict(s, i);
        if m.None? {
          return Refused(i);
        }
        i, prev := m.value, Some(')');
      } else if c == '<' && OpensAngle(s, i, cls) {
        i, angle, prev := i + 1, angle + 1, Some(c);
      } else if c == '<' && IsCh(s, i + 1, '<') {
        i, prev := i + 2, Some('<');
      } else if ClosesAngle(c, prev, angle) {
        i, angle, prev := i + 1, angle - 1, Some(c);
      } else if c == ';' && angle > 0 {
        return Refused(attr);
      } else if (c == ',' || c == ';') && angle == 0 {
        return Ok(i + 1);
      } else if IsClose(c) {
        return if angle > 0 then Refused(attr) else Ok(i);
      } else {
        i, prev := i + 1, Prev(prev, c);
      }
    }
    return Refused(attr);
  }

  method FindExtent(s: string, attr: nat, i: nat, cls: CharClass) returns (r: Outcome)
    requires i <= |s|
    ensures r == ExtentEnd(s, attr, i, cls)
  {
    var h := ClassifyConstruct(s, i, cls);
    match h
    case NoHead(pos) => r := Refused(pos);
    case Head(Macro, at) => r := MacroEnd(s, at, attr);
    case Head(Comma, at) => r := CommaExtent(s, at, attr, cls);
    case Head(Semi, at) => r := ItemExtent(s, at, false, attr);
    case Head(Body, at) => r := ItemExtent(s, at, true, attr);
  }

  method SkipStacked(s: string, start: nat) returns (r: Outcome)
    requires start <= |s|
    ensures r == SkipAttrs(s, start)
  {
    var i := start;
    while true
      invariant start <= i <= |s| && SkipAttrs(s, i) == SkipAttrs(s, start)
      decreases |s| - i
    {
      i := SkipSpaces(s, i);
      if !IsCh(s, i, '#') {
        return Ok(i);
      }
      var j := SkipSpaces(s, i + 1);
      if !IsCh(s, j, '[') {
        return Ok(i);
      }
      var m := MatchDelimStrict(s, j);
      if m.None? {
        return Refused(j);
      }
      i := m.value;
    }
  }

  method FindEffect(s: string, a: nat, cls: CharClass) returns (e: Effect)
    requires a < |s|
    ensures e == EffectAt(s, a, cls)
  {
    match AttrAt(s, a)
    case NoAttr => e := Keep;
    case BadAttr(pos) => e := Fail(pos);
    case CfgAttr(stop, inner, pred) =>
      if !Gates(pred) {
        e := Keep;
      } else if inner {
        e := if BraceDepth(s, a) == 0 then CutAll else Fail(a);
      } else {
        var i := SkipStacked(s, stop);
        if i.Refused? {
          e := Fail(i.pos);
        } else {
          var end := FindExtent(s, a, i.end, cls);
          e := if end.Refused? then Fail(end.pos) else Cut(end.end);
        }
      }
  }

  /** The pass over a character buffer. */
  method StripPass(text: string, cls: CharClass) returns (r: Pruned)
    ensures r == StripCfgTest(text, cls)
  {
    var lexed, _, _ := LexerRun.LexFull(text, true);
    var out := new char[|text|](k requires 0 <= k < |text| => text[k]);
    assert out[..] == text;
    ghost var effects := Effects(lexed, cls);
    for a := 0 to |lexed|
      invariant Apply(effects, out[..], a) == Apply(effects, text, 0)
    {
      var e := FindEffect(lexed, a, cls);
      assert e == effects[a];
      match e
      case Keep =>
      case Cut(end) => LexerRun.Blank(out, a, end);
      case CutAll => return Pruned(Lexer.BlankRange(out[..], 0, |text|));
      case Fail(pos) => return Error(pos);
    }
    return Pruned(out[..]);
  }
}

/** The cfg(test) extent walk: what an attribute governs, found on lexed text. */
module Extent {

  import opened Options
  import opened Delimiters
  import opened Words
  import Lexer

  /** The Unicode classes `isalnum` and `isdigit` of the host, taken as given. */
  datatype CharClass = CharClass(alnum: char -> bool, digit: char -> bool)

  /** A position, or a StripError that names the line of `pos`. */
  datatype Outcome = Ok(end: nat) | Refused(pos: nat)

  datatype Mode = Semi | Body | Macro | Comma

  datatype Head = Head(mode: Mode, at: nat) | NoHead(pos: nat)

  predicate IsWordStart(c: char)
  {
    'A' <= c <= 'Z' || 'a' <= c <= 'z' || c == '_'
  }

  predicate IsWordChar(c: char)
  {
    IsWordStart(c) || '0' <= c <= '9'
  }

  /** Identifiers are made of ASCII letters, digits and underscores, and do not start with a digit. */
  lemma LettersAre(c: char)
    ensures IsWordStart(c) <==> c in "ABCDEFGHIJKLMNOPQRSTUVWXYZ" || c in "abcdefghijklmnopqrstuvwxyz" || c == '_'
    ensures IsWordChar(c) <==> IsWordStart(c) || c in "0123456789"
  {
    UpperCase(c);
    LowerCase(c);
  }

  lemma UpperCase(c: char)
    ensures c in "ABCDEFGHIJKLMNOPQRSTUVWXYZ" <==> 'A' <= c <= 'Z'
  {
  }

  lemma LowerCase(c: char)
    ensures c in "abcdefghijklmnopqrstuvwxyz" <==> 'a' <= c <= 'z'
  {
  }

  // ----- small scans -----

  function SkipWs(s: string, i: nat): (r: nat)
    requires i <= |s|
    ensures i <= r <= |s|
    ensures forall k :: i <= k < r ==> IsSpace(s[k])
    ensures r < |s| ==> !IsSpace(s[r])
    decreases |s| - i
  {
    if i < |s| && IsSpace(s[i]) then SkipWs(s, i + 1) else i
  }

  function WordTail(s: string, i: nat): (r: nat)
    requires i <= |s|
    ensures i <= r <= |s|
    ensures forall k :: i <= k < r ==> IsWordChar(s[k])
    decreases |s| - i
  {
    if i < |s| && IsWordChar(s[i]) then WordTail(s, i + 1) else i
  }

  predicate HasWord(s: string, i: nat)
  {
    i < |s| && IsWordStart(s[i])
  }

  /** End of the identifier that starts at `i`. */
  function WordEnd(s: string, i: nat): (r: nat)
    requires HasWord(s, i)
    ensures i < r <= |s|
    ensures forall k :: i <= k < r ==> IsWordChar(s[k])
  {
    WordTail(s, i + 1)
  }

  predicate WordIs(s: string, i: nat, w: string)
  {
    HasWord(s, i) && s[i..WordEnd(s, i)] == w
  }

  predicate IsCh(s: string, i: nat, c: char)
  {
    i < |s| && s[i] == c
  }

  /** Past a run of `::ident` segments. */
  function PathEnd(s: string, j: nat): (r: nat)
    requires j <= |s|
    ensures j <= r <= |s|
    decreases |s| - j
  {
    var k := SkipWs(s, j);
    if IsCh(s, k, ':') && IsCh(s, k + 1, ':') then
      var w := SkipWs(s, k + 2);
      if HasWord(s, w) then PathEnd(s, WordEnd(s, w)) else j
    else j
  }

  // ----- classification -----

  predicate IsQualifier(w: string)
  {
    w == "default" || w == "unsafe" || w == "async" || w == "auto"
  }

  predicate IsSemiItem(w: string)
  {
    w == "static" || w == "type" || w == "use"
  }

  predicate IsBodyItem(w: string)
  {
    w == "fn" || w == "mod" || w == "impl" || w == "trait" || w == "enum" || w == "struct" || w == "union"
  }

  predicate IsAttachHead(c: char)
  {
    c == '(' || c == '[' || c == '&' || c == '|' || c == '<' || c == '\'' || c == '.' || c == '-' || c == '"'
  }

  /** A head that is no identifier. */
  function SymbolHead(s: string, i: nat, cls: CharClass): Head
    requires i < |s|
  {
    if s[i] == '{' || cls.digit(s[i]) || IsAttachHead(s[i]) then Head(Comma, i) else NoHead(i)
  }

  /** A macro invocation, or the name that starts a field, variant, arm or statement. */
  function PathHead(s: string, i: nat): Head
    requires HasWord(s, i)
  {
    var k := SkipWs(s, PathEnd(s, WordEnd(s, i)));
    if IsCh(s, k, '!') then Head(Macro, k + 1) else Head(Comma, i)
  }

  /** One turn of the qualifier loop: the construct is known, or the loop goes on at `at`. */
  datatype Turn = Known(head: Head) | Again(at: nat)

  /** `pub`, with an optional `(...)` restriction. */
  function PubTurn(s: string, e: nat): Turn
    requires e <= |s|
  {
    var p := SkipWs(s, e);
    if IsCh(s, p, '(') then
      var m := MatchStrict(s, p);
      if m.None? then Known(NoHead(p)) else Again(m.value)
    else Again(p)
  }

  /** `const fn` is a qualifier, any other `const` an item. */
  function ConstTurn(s: string, e: nat): Turn
    requires e <= |s|
  {
    if WordIs(s, SkipWs(s, e), "fn") then Again(SkipWs(s, e)) else Known(Head(Semi, e))
  }

  /** `extern "ABI"`, `extern crate` or a bare foreign block. */
  function ExternTurn(s: string, e: nat): Turn
    requires e <= |s|
  {
    var j := SkipWs(s, e);
    if IsCh(s, j, '"') then
      var k := Lexer.FindChar(s, '"', j + 1);
      if k == |s| then Known(NoHead(|s|)) else Again(k + 1)
    else if WordIs(s, j, "crate") then Known(Head(Semi, WordEnd(s, j)))
    else Known(Head(Body, j))
  }

  function WordTurn(s: string, b: nat): (t: Turn)
    requires HasWord(s, b)
    ensures t.Again? ==> b < t.at <= |s|
    ensures t.Known? && t.head.Head? ==> b <= t.head.at <= |s|
  {
    var e := WordEnd(s, b);
    var w := s[b..e];
    if w == "pub" then PubTurn(s, e)
    else if IsQualifier(w) then Again(e)
    else if w == "const" then ConstTurn(s, e)
    else if w == "extern" then ExternTurn(s, e)
    else if w == "macro_rules" then Known(Head(Macro, e))
    else if IsSemiItem(w) then Known(Head(Semi, e))
    else if IsBodyItem(w) then Known(Head(Body, e))
    else Known(PathHead(s, b))
  }

  /** Which kind of construct starts at `i`, after visibility and other qualifiers. */
  function Classify(s: string, i: nat, cls: CharClass): (h: Head)
    requires i <= |s|
    ensures h.Head? ==> i <= h.at <= |s|
    decreases |s| - i
  {
    var b := SkipWs(s, i);
    if b == |s| then NoHead(b)
    else if !IsWordStart(s[b]) then SymbolHead(s, b, cls)
    else
      var t := WordTurn(s, b);
      if t.Known? then t.head else Classify(s, t.at, cls)
  }

  // ----- extents -----

  /** Item with a `;` or, in body mode, a brace group at top level. */
  function ItemEnd(s: string, i: nat, body: bool, attr: nat): Outcome
    requires i <= |s|
    decreases |s| - i
  {
    if i == |s| then Refused(attr)
    else if IsOpen(s[i]) then
      var m := MatchStrict(s, i);
      if m.None? then Refused(i)
      else if s[i] == '{' && body then Ok(m.value)
      else ItemEnd(s, m.value, body, attr)
    else if s[i] == ';' then Ok(i + 1)
    else if IsClose(s[i]) then Refused(attr)
    else ItemEnd(s, i + 1, body, attr)
  }

  /** Where a macro's delimiter group may start. */
  function MacroGroup(s: string, i: nat): (r: nat)
    requires i <= |s|
    ensures i <= r <= |s|
  {
    var b := SkipWs(s, i);
    var c := if IsCh(s, b, '!') then SkipWs(s, b + 1) else b;
    if HasWord(s, c) then SkipWs(s, WordEnd(s, c)) else c
  }

  function MacroEnd(s: string, i: nat, attr: nat): Outcome
    requires i <= |s|
  {
    var g := MacroGroup(s, i);
    if g == |s| || !IsOpen(s[g]) then Refused(attr)
    else
      var m := MatchStrict(s, g);
      if m.None? then Refused(g)
      else
        var j := SkipWs(s, m.value);
        if IsCh(s, j, ';') then Ok(j + 1)
        else if s[g] == '{' then Ok(m.value)
        else Refused(attr)
  }

  /** A `<` directly after an identifier, `>`, `)`, `]`, `<` or `:` opens a generic argument list. */
  predicate OpensAngle(s: string, i: nat, cls: CharClass)
    requires i < |s|
  {
    i > 0 && (cls.alnum(s[i - 1]) || s[i - 1] == '_' || s[i - 1] == '>' || s[i - 1] == ')' || s[i - 1] == ']'
              || s[i - 1] == '<' || s[i - 1] == ':')
  }

  /** Last character that was not whitespace, none at the start. */
  function Prev(prev: Option<char>, c: char): Option<char>
  {
    if IsSpace(c) then prev else Some(c)
  }

  predicate ClosesAngle(c: char, prev: Option<char>, angle: nat)
  {
    c == '>' && angle > 0 && prev.Some? && prev.value != '-' && prev.value != '='
  }

  /** Field, variant, arm, struct-expression field or statement. */
  function CommaEnd(s: string, i: nat, angle: nat, prev: Option<char>, attr: nat, cls: CharClass): Outcome
    requires i <= |s|
    decreases |s| - i
  {
    if i == |s| then Refused(attr)
    else
      var c := s[i];
      if IsOpen(c) then
        var m := MatchStrict(s, i);
        if m.None? then Refused(i)
        else if c != '{' then CommaEnd(s, m.value, angle, Some(')'), attr, cls)
        else if angle > 0 then Refused(attr)
        else
          var j := SkipWs(s, m.value);
          if IsCh(s, j, ',') || IsCh(s, j, ';') then Ok(j + 1)
          else if WordIs(s, j, "else") then CommaEnd(s, WordEnd(s, j), angle, Some('e'), attr, cls)
          else Ok(m.value)
      else if c == '<' && OpensAngle(s, i, cls) then CommaEnd(s, i + 1, angle + 1, Some(c), attr, cls)
      else if c == '<' && IsCh(s, i + 1, '<') then CommaEnd(s, i + 2, angle, Some('<'), attr, cls)
      else if ClosesAngle(c, prev, angle) then CommaEnd(s, i + 1, angle - 1, Some(c), attr, cls)
      else if c == ';' && angle > 0 then Refused(attr)
      else if (c == ',' || c == ';') && angle == 0 then Ok(i + 1)
      else if IsClose(c) then (if angle > 0 then Refused(attr) else Ok(i))
      else CommaEnd(s, i + 1, angle, Prev(prev, c), attr, cls)
  }

  /** End of the construct at `i` that the attribute at `attr` governs. */
  function ExtentEnd(s: string, attr: nat, i: nat, cls: CharClass): Outcome
    requires i <= |s|
  {
    match Classify(s, i, cls)
    case NoHead(pos) => Refused(pos)
    case Head(Macro, at) => MacroEnd(s, at, attr)
    case Head(Comma, at) => CommaEnd(s, at, 0, None, attr, cls)
    case Head(Semi, at) => ItemEnd(s, at, false, attr)
    case Head(Body, at) => ItemEnd(s, at, true, attr)
  }
}

/** `strip_cfg_test`: finds the test-gating attributes on the lexed text and blanks what they govern. */
module Prune {

  import opened Options
  import opened Delimiters
  import opened Extent
  import opened CfgPredicate
  import Lexer

  // ----- attributes -----

  /** What stands at a position: no cfg attribute, a malformed attribute, or `#[cfg(pred)]` /
      `#![cfg(pred)]` ending at `stop`. */
  datatype Attr = NoAttr | BadAttr(pos: nat) | CfgAttr(stop: nat, inner: bool, pred: string)

  /** `#`, optional `!`, whitespace, `[`: the bracket's position. */
  function AttrBracket(s: string, a: nat): (r: Option<nat>)
    ensures r.Some? ==> a < r.value < |s| && s[r.value] == '[' && s[a] == '#'
  {
    if !IsCh(s, a, '#') then None
    else
      var b := SkipWs(s, if IsCh(s, a + 1, '!') then a + 2 else a + 1);
      if IsCh(s, b, '[') then Some(b) else None
  }

  function AttrAt(s: string, a: nat): (r: Attr)
    ensures r.CfgAttr? ==> a + 2 <= r.stop <= |s|
  {
    var b := AttrBracket(s, a);
    if b.None? then NoAttr
    else
      var m := MatchStrict(s, b.value);
      if m.None? then BadAttr(b.value)
      else CfgBody(s, a, b.value, m.value)
  }

  /** The attribute body [b+1, stop-1), if it is `cfg(...)`. */
  function CfgBody(s: string, a: nat, b: nat, stop: nat): (r: Attr)
    requires b < stop <= |s|
    ensures r.CfgAttr? ==> r.stop == stop
  {
    var c := SkipWs(s, b + 1);
    if c + 3 <= |s| && s[c..c + 3] == "cfg" then
      var p := SkipWs(s, c + 3);
      if IsCh(s, p, '(') then
        var m := MatchStrict(s, p);
        if m.None? then BadAttr(p) else CfgAttr(stop, IsCh(s, a + 1, '!'), s[p + 1..m.value - 1])
      else NoAttr
    else NoAttr
  }

  /** Past whitespace and stacked attributes. */
  function SkipAttrs(s: string, i: nat): (r: Outcome)
    requires i <= |s|
    ensures r.Ok? ==> i <= r.end <= |s|
    decreases |s| - i
  {
    var b := SkipWs(s, i);
    if IsCh(s, b, '#') then
      var j := SkipWs(s, b + 1);
      if IsCh(s, j, '[') then
        var m := MatchStrict(s, j);
        if m.None? then Refused(j) else SkipAttrs(s, m.value)
      else Ok(b)
    else Ok(b)
  }

  /** End of what the attribute [a, stop) governs. */
  function GovernedEnd(s: string, a: nat, stop: nat, cls: CharClass): Outcome
    requires stop <= |s|
  {
    var i := SkipAttrs(s, stop);
    if i.Refused? then i else ExtentEnd(s, a, i.end, cls)
  }

  function BraceDepth(s: string, a: nat): int
    requires a <= |s|
  {
    if a == 0 then 0
    else BraceDepth(s, a - 1) + if s[a - 1] == '{' then 1 else if s[a - 1] == '}' then -1 else 0
  }

  // ----- the pass -----

  datatype Pruned = Pruned(text: string) | Error(pos: nat)

  /** What one position does to the text: nothing, blank up to `end`, blank all, or refuse. */
  datatype Effect = Keep | Cut(end: nat) | CutAll | Fail(pos: nat)

  function EffectAt(s: string, a: nat, cls: CharClass): (r: Effect)
    requires a < |s|
  {
    match AttrAt(s, a)
    case NoAttr => Keep
    case BadAttr(pos) => Fail(pos)
    case CfgAttr(stop, inner, pred) =>
      if !Gates(pred) then Keep
      else if inner then (if BraceDepth(s, a) == 0 then CutAll else Fail(a))
      else
        var end := GovernedEnd(s, a, stop, cls);
        if end.Refused? then Fail(end.pos) else Cut(end.end)
  }

  function Effects(s: string, cls: CharClass): (r: seq<Effect>)
    ensures |r| == |s|
  {
    seq(|s|, a requires 0 <= a < |s| => EffectAt(s, a, cls))
  }

  /** Applies the effects of positions a, a+1, ... to `out`. */
  function Apply(effects: seq<Effect>, out: string, a: nat): Pruned
    requires a <= |effects|
    decreases |effects| - a
  {
    if a == |effects| then Pruned(out)
    else
      match effects[a]
      case Keep => Apply(effects, out, a + 1)
      case Cut(end) => Apply(effects, Lexer.BlankRange(out, a, end), a + 1)
      case CutAll => Pruned(Lexer.BlankRange(out, 0, |out|))
      case Fail(pos) => Error(pos)
  }

  /** The attributes are found on the lexed text, the blanking is done on the original. */
  function StripCfgTest(text: string, cls: CharClass): Pruned
  {
    Apply(Effects(Lexer.Lexed(text, true), cls), text, 0)
  }

  /** Length and newlines survive, so line numbers are stable; nothing but blanks is introduced. */
  lemma {:induction false} ApplyKeepsLines(effects: seq<Effect>, out: string, a: nat)
    requires a <= |effects| && Apply(effects, out, a).Pruned?
    ensures var t := Apply(effects, out, a).text;
            && |t| == |out|
            && forall k :: 0 <= k < |t| ==> (t[k] == '\n' <==> out[k] == '\n') && (t[k] == out[k] || t[k] == ' ')
    decreases |effects| - a
  {
    if a < |effects| {
      match effects[a]
      case Keep => ApplyKeepsLines(effects, out, a + 1);
      case Cut(end) => ApplyKeepsLines(effects, Lexer.BlankRange(out, a, end), a + 1);
      case CutAll =>
      case Fail(pos) =>
    }
  }
}

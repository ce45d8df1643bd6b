/** Macro extents, and gated modules end to end. */
module GatedItems {

  import opened Words
  import opened Delimiters
  import opened Extent
  import opened CfgPredicate
  import opened CfgTrees
  import opened Prune
  import opened Constructs
  import opened Attributes
  import SpellingTable
  import Lexer

  // ----- macros -----

  /** Behind a macro's name stand an optional `!`, an optional name of its own, and its group at `g`. */
  ghost predicate MacroForm(s: string, i: nat, c: nat, g: nat)
  {
    && i <= |s| && c <= |s| && g < |s| && IsOpen(s[g])
    && (if IsCh(s, SkipWs(s, i), '!') then c == SkipWs(s, SkipWs(s, i) + 1) else c == SkipWs(s, i))
    && (if HasWord(s, c) then Gap(s, WordEnd(s, c), g) else c == g)
  }

  /** A brace group ends the item, with a `;` behind it if there is one; any other group must be followed by `;`. */
  lemma MacroExactly(s: string, i: nat, c: nat, g: nat, e: nat, attr: nat)
    requires MacroForm(s, i, c, g) && ClosedAt(s, g, e)
    ensures e <= |s|
    ensures var j := SkipWs(s, e);
            MacroEnd(s, i, attr) == if IsCh(s, j, ';') then Ok(j + 1) else if s[g] == '{' then Ok(e) else Refused(attr)
  {
    if HasWord(s, c) { GapSkips(s, WordEnd(s, c), g); }
    MatchIs(s, g, e);
    assert MacroGroup(s, i) == g;
  }

  lemma MacroUnclosed(s: string, i: nat, c: nat, g: nat, attr: nat)
    requires MacroForm(s, i, c, g) && StaysOpen(s, g, |s|)
    ensures MacroEnd(s, i, attr) == Refused(g)
  {
    if HasWord(s, c) { GapSkips(s, WordEnd(s, c), g); }
    StrictVsLenient(s, g);
    assert MacroGroup(s, i) == g;
  }

  // ----- modules -----

  /** Only a name stands between the keyword's end and the brace. */
  predicate NameOnly(s: string, i: nat, k: nat)
  {
    i <= k < |s| && s[k] == '{' && forall x :: i <= x < k ==> IsSpace(s[x]) || IsWordChar(s[x])
  }

  lemma {:induction false} BraceReached(s: string, i: nat, k: nat, attr: nat)
    requires NameOnly(s, i, k)
    ensures ItemEnd(s, i, true, attr) == if MatchStrict(s, k).Some? then Ok(MatchStrict(s, k).value) else Refused(k)
    decreases k - i
  {
    if i < k {
      BraceReached(s, i + 1, k, attr);
    }
  }

  /** A test gate before a module, with attributes stacked behind it and qualifiers before the keyword, cuts exactly to
      the partner of the module's brace, and refuses at the brace if it has none. */
  lemma GatedModule(s: string, a: nat, stop: nat, pred: string, i: nat, p: seq<nat>, k: nat, cls: CharClass)
    requires a < |s| && stop <= |s| && AttrAt(s, a) == CfgAttr(stop, false, pred) && Gates(pred)
    requires SkipAttrs(s, stop) == Ok(i) && i <= |s| && QualifierRun(s, i, p) && WordIs(s, p[|p| - 1], "mod")
    requires NameOnly(s, WordEnd(s, p[|p| - 1]), k)
    ensures forall e: nat :: EffectAt(s, a, cls) == Cut(e) <==> ClosedAt(s, k, e)
    ensures EffectAt(s, a, cls) == Fail(k) <==> StaysOpen(s, k, |s|)
  {
    var b := p[|p| - 1];
    RunClassifies(s, i, p, cls);
    BodyWord(s, b, cls);
    BraceReached(s, WordEnd(s, b), k, a);
    OuterGate(s, a, stop, pred, i, cls);
    StrictVsLenient(s, k);
  }

  // ----- the same on text -----

  /** A bare test gate as it is usually written. */
  lemma TestAttr(s: string, a: nat)
    requires a + 12 <= |s| && s[a..a + 12] == "#[cfg(test)]"
    ensures AttrAt(s, a) == CfgAttr(a + 12, false, "test")
  {
    AttrMarks(s, a, s[a..a + 12]);
    AttrWords(s, a, s[a..a + 12]);
    FormRead(s, a, false, a + 1, a + 2, a + 5, a + 11, a + 12);
  }

  lemma AttrWords(s: string, a: nat, t: string)
    requires a + 12 <= |s| && t == s[a..a + 12] == "#[cfg(test)]"
    ensures s[a + 2..a + 5] == "cfg" && s[a + 6..a + 10] == "test"
  {
    SpellingTable.SliceSlice(s, a, a + 12, 2, 5);
    SpellingTable.SliceSlice(s, a, a + 12, 6, 10);
    assert t[2..5] == "cfg" && t[6..10] == "test";
  }

  lemma AttrMarks(s: string, a: nat, t: string)
    requires a + 12 <= |s| && t == s[a..a + 12] == "#[cfg(test)]"
    ensures s[a] == '#' && s[a + 1] == '[' && s[a + 2] == 'c' && s[a + 5] == '('
    ensures ClosedAt(s, a + 1, a + 12) && ClosedAt(s, a + 5, a + 11)
  {
    assert s[a] == t[0] && s[a + 1] == t[1] && s[a + 2] == t[2] && s[a + 3] == t[3] && s[a + 4] == t[4] && s[a + 5] == t[5];
    assert s[a + 6] == t[6] && s[a + 7] == t[7] && s[a + 8] == t[8] && s[a + 9] == t[9] && s[a + 10] == t[10] && s[a + 11] == t[11];
    PlainGroup(s, a + 1, a + 12);
    PlainGroup(s, a + 5, a + 11);
  }

  lemma ModuleWord(s: string, b: nat)
    requires b + 4 <= |s| && s[b..b + 3] == "mod" && !IsWordChar(s[b + 3])
    ensures WordIs(s, b, "mod") && WordEnd(s, b) == b + 3
  {
    assert s[b] == s[b..b + 3][0] && s[b + 1] == s[b..b + 3][1] && s[b + 2] == s[b..b + 3][2];
    WordTailIs(s, b + 1, b + 3);
  }

  /** `#[cfg(test)]`, whitespace, `mod`, a name and a brace at `k`: the cut goes from the `#` to the partner of that
      brace, wherever in the text it stands. */
  lemma GatedModuleText(s: string, a: nat, b: nat, k: nat, cls: CharClass)
    requires a + 12 <= |s| && s[a..a + 12] == "#[cfg(test)]" && Gap(s, a + 12, b)
    requires b + 4 <= |s| && s[b..b + 3] == "mod" && IsSpace(s[b + 3]) && NameOnly(s, b + 3, k)
    ensures forall e: nat :: EffectAt(s, a, cls) == Cut(e) <==> ClosedAt(s, k, e)
    ensures EffectAt(s, a, cls) == Fail(k) <==> StaysOpen(s, k, |s|)
  {
    TestAttr(s, a);
    TestGates();
    GapSkips(s, a + 12, b);
    assert s[b] == s[b..b + 3][0];
    assert SkipAttrs(s, a + 12) == Ok(b);
    ModuleWord(s, b);
    assert SkipWs(s, b) == b && QualifierRun(s, b, [b]);
    GatedModule(s, a, a + 12, "test", b, [b], k, cls);
  }

  /** Then everything from the `#` to that partner is blank in the pruned source. */
  lemma GatedModuleIsBlank(text: string, a: nat, e: nat, cls: CharClass, k: nat)
    requires a < |text| && EffectAt(Lexer.Lexed(text, true), a, cls) == Cut(e) && a <= k < e && k < |text|
    requires StripCfgTest(text, cls).Pruned?
    ensures |StripCfgTest(text, cls).text| == |text| && StripCfgTest(text, cls).text[k] == Blanked(text[k])
  {
    var effects := Effects(Lexer.Lexed(text, true), cls);
    assert effects[a] == Cut(e);
    StaysBlank(effects, text, 0, a, k);
  }

  lemma {:induction false} StaysBlank(effects: seq<Effect>, out: string, b: nat, a: nat, k: nat)
    requires b <= a < |effects| && effects[a].Cut? && a <= k < effects[a].end && k < |out| && Apply(effects, out, b).Pruned?
    ensures |Apply(effects, out, b).text| == |out| && Apply(effects, out, b).text[k] == Blanked(out[k])
    decreases |effects| - b
  {
    match effects[b]
    case Keep => StaysBlank(effects, out, b + 1, a, k);
    case Cut(end) => {
      var next := Lexer.BlankRange(out, b, end);
      if b == a {
        ApplyKeepsLines(effects, next, b + 1);
      } else {
        StaysBlank(effects, next, b + 1, a, k);
      }
    }
    case CutAll => {}
    case Fail(pos) => {}
  }
}

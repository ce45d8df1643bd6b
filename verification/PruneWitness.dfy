/** A source on which pruning and lexing do not commute: the attribute's `#` is the mark that closes a raw string. */
module PruneWitness {

  import opened Lexer
  import opened Extent
  import opened CfgTrees
  import opened Prune
  import opened PruneCommutes
  import opened Attributes
  import opened GatedItems

  const STRAY := "r#\"\"#[cfg(test)]use a;"

  // ----- lexing it changes nothing -----

  predicate IsPlain(c: char)
  {
    c != '/' && c != 'r' && c != 'b' && c != '"' && c != '\''
  }

  lemma {:induction false} PlainWalk(text: string, i: nat)
    requires i <= |text| && forall k :: i <= k < |text| ==> IsPlain(text[k])
    ensures forall k :: 0 <= k < |Walk(text, i)| ==> Walk(text, i)[k].kind == Code
    decreases |text| - i
  {
    if i < |text| {
      assert IsPlain(text[i]);
      assert Step(text, i) == CodeStep(i);
      PlainWalk(text, i + 1);
    }
  }

  lemma StrayStep(s: string)
    requires s == STRAY
    ensures Step(s, 0) == Token(RawString, 0, 5, 3, 3)
  {
    assert HashEnd(s, 1) == HashEnd(s, 2) == 2;
    assert RawPrefixLen(s, 0) == 3;
    assert ClosesRaw(s, 3, 1);
  }

  /** An empty raw string with plain text behind it. */
  lemma LexedIsText(text: string)
    requires text != "" && Step(text, 0).bodyStart == Step(text, 0).bodyEnd && Step(text, 0).stop <= |text|
    requires forall k :: Step(text, 0).stop <= k < |text| ==> IsPlain(text[k])
    ensures Lexed(text, true) == text
  {
    var stop := Step(text, 0).stop;
    PlainWalk(text, stop);
    assert Tokens(text) == [Step(text, 0)] + Walk(text, stop);
    forall k: nat | k < |text|
      ensures Lexed(text, true)[k] == text[k]
    {
      LexedAt(text, true, k);
    }
  }

  lemma StrayLexed(s: string)
    requires s == STRAY
    ensures Lexed(s, true) == s
  {
    StrayStep(s);
    LexedIsText(s);
  }

  // ----- its one attribute -----

  lemma StrayAttr(s: string)
    requires s == STRAY
    ensures AttrAt(s, 4) == CfgAttr(16, false, "test")
  {
    assert s[4..16] == "#[cfg(test)]";
    TestAttr(s, 4);
  }

  lemma UseItem(s: string, attr: nat, i: nat, cls: CharClass)
    requires i + 6 <= |s| && WordIs(s, i, "use")
    requires s[i + 3] == ' ' && s[i + 4] == 'a' && s[i + 5] == ';'
    ensures ExtentEnd(s, attr, i, cls) == Ok(i + 6)
  {
    assert WordTurn(s, i) == Known(Head(Semi, i + 3));
    assert Classify(s, i, cls) == Head(Semi, i + 3);
    assert ItemEnd(s, i + 5, false, attr) == Ok(i + 6);
    assert ItemEnd(s, i + 4, false, attr) == Ok(i + 6);
  }

  lemma StrayItem(s: string, cls: CharClass)
    requires s == STRAY
    ensures SkipAttrs(s, 16) == Ok(16) && ExtentEnd(s, 4, 16, cls) == Ok(22)
  {
    StrayWord(s);
    UseItem(s, 4, 16, cls);
    NoMoreAttrs(s, 16);
  }

  lemma NoMoreAttrs(s: string, stop: nat)
    requires HasWord(s, stop)
    ensures SkipAttrs(s, stop) == Ok(stop)
  {
  }

  lemma StrayWord(s: string)
    requires s == STRAY
    ensures WordIs(s, 16, "use")
  {
    assert WordTail(s, 18) == WordTail(s, 19) == 19;
    assert WordTail(s, 17) == 19;
    assert s[16..19] == "use";
  }

  lemma StrayRegion(s: string, cls: CharClass)
    requires s == STRAY
    ensures EffectAt(s, 4, cls) == Cut(22)
  {
    TestGates();
    StrayAttr(s);
    StrayItem(s, cls);
    OuterGate(s, 4, 16, "test", 16, cls);
  }

  lemma StrayKept(s: string, cls: CharClass)
    requires s == STRAY
    ensures forall a :: 0 <= a < |s| && a != 4 ==> EffectAt(s, a, cls) == Keep
  {
    forall a | 0 <= a < |s| && a != 4
      ensures EffectAt(s, a, cls) == Keep
    {
      StrayNoBracket(s, a);
      NoBracket(s, a, cls);
    }
  }

  lemma StrayNoBracket(s: string, a: nat)
    requires s == STRAY && a < |s| && a != 4
    ensures AttrBracket(s, a).None?
  {
    if a == 1 { assert SkipWs(s, 2) == 2; }
    else { assert s[a] != '#'; }
  }

  /** The region starts at the raw closer's hash, where the walk does not stand, so the two orders differ. */
  lemma StrayHashDoesNotCommute(s: string, cls: CharClass)
    requires s == STRAY
    ensures !Agree(Effects(Lexed(s, true), cls), s, 0)
  {
    StrayLexed(s);
    StrayStep(s);
    StrayRegion(s, cls);
    StrayKept(s, cls);
    var effects := Effects(Lexed(s, true), cls);
    assert !Stands(s, 4);
    assert effects[4] == Cut(22) && !Inside(effects, 4);
    assert !GoodStart(s, effects, 4);
    PruneCommutesExactly(s, cls);
  }
}

/** Pruning commutes with lexing, and exactly when: pruning the source and lexing it against lexing it and pruning
    that. The two can part only at an attribute whose `#` closes a raw string. */
module PruneCommutes {

  import opened Extent
  import opened ExtentProps
  import opened Prune
  import PruneProps
  import opened Lexer
  import LexerBlanking
  import LexedShape

  ghost predicate Stands(text: string, p: nat)
  {
    LexerBlanking.Visits(text, 0, p)
  }

  // ----- where regions start and end -----

  lemma RegionBounds(text: string, cls: CharClass, a: nat)
    requires a < |text| && EffectAt(Lexed(text, true), a, cls).Cut?
    ensures var end := EffectAt(Lexed(text, true), a, cls).end; a + 2 <= end <= |text| && Stands(text, end)
    ensures AttrBracket(Lexed(text, true), a).Some?
  {
    var s := Lexed(text, true);
    var stop := AttrAt(s, a).stop;
    ExtentAnchored(s, a, SkipAttrs(s, stop).end, cls);
    AnchoredIsVisited(text, EffectAt(s, a, cls).end);
  }

  /** Position `a` is a hash of the closer of the raw string that starts at `p`. */
  ghost predicate ClosesRawAt(text: string, p: nat, a: nat)
  {
    && p < |text| && Stands(text, p) && RawPrefixLen(text, p) > 0 && Step(text, p) == RawStep(text, p)
    && Step(text, p).bodyEnd < a < Step(text, p).stop <= |text| && text[Step(text, p).bodyEnd] == '"'
  }

  /** Delimiter marks are never blanked. */
  lemma MarksKept(text: string, p: nat, k: nat)
    requires p < |text| && Stands(text, p) && p <= k < Step(text, p).stop && k < |text|
    requires !(Step(text, p).bodyStart <= k < Step(text, p).bodyEnd)
    ensures Lexed(text, true)[k] == text[k]
  {
    StepShape(text, p);
    LexerBlanking.BlanksStep(text, p, true, k);
    LexerBlanking.BlanksOnlyAhead(text, Step(text, p).stop, true, k);
    LexerBlanking.BlanksSkip(text, 0, p, true, k);
    LexerBlanking.BlanksFromWalk(text, 0, true, k);
    LexedAt(text, true, k);
  }

  /** Only raw strings have hashes among their marks. */
  lemma HashIsRaw(text: string, p: nat, k: nat)
    requires p < |text| && Step(text, p).kind != Code && !IsComment(Step(text, p)) && p <= k < Step(text, p).stop
    requires !(Step(text, p).bodyStart <= k < Step(text, p).bodyEnd) && k < |text| && text[k] == '#'
    ensures RawPrefixLen(text, p) > 0 && Step(text, p) == RawStep(text, p)
  {
    if RawPrefixLen(text, p) == 0 {
      if OpensString(text, p) {
        var j := StrEnd(text, QuoteAt(text, p) + 1);
        if j < |text| { LexedShape.StrEndQuote(text, QuoteAt(text, p) + 1); }
      } else {
        var j := QuoteAt(text, p) + 1;
        if CharAt(text, j, '\\') && CharEnd(text, j + 2) < |text| { LexedShape.CharEndQuote(text, j + 2); }
      }
      assert false;
    }
  }

  /** In a raw string's opener a hash is followed by another mark. */
  lemma OpenerGoesOn(text: string, p: nat, a: nat)
    requires p < |text| && RawPrefixLen(text, p) > 0 && p <= a < p + RawPrefixLen(text, p) && a < |text| && text[a] == '#'
    ensures a + 1 < p + RawPrefixLen(text, p) && a + 1 < |text| && (text[a + 1] == '#' || text[a + 1] == '"')
  {
    var j := RawR(text, p);
    var k := HashEnd(text, j + 1);
    if a + 1 < k { LexedShape.HashRun(text, j + 1, a + 1); }
  }

  lemma CloserQuote(text: string, p: nat)
    requires p < |text| && RawPrefixLen(text, p) > 0 && RawStep(text, p).bodyEnd < RawStep(text, p).stop
    ensures RawStep(text, p).bodyEnd < |text| && text[RawStep(text, p).bodyEnd] == '"'
    ensures RawStep(text, p).stop <= |text| && RawStep(text, p).stop == RawStep(text, p).bodyEnd + 1 + RawHashes(text, p)
  {
  }

  /** An attribute that does not start where the walk stands starts with a closing hash of a raw string. */
  lemma UnvisitedAttr(text: string, a: nat) returns (p: nat)
    requires a < |text| && AttrBracket(Lexed(text, true), a).Some? && !Stands(text, a)
    ensures p < a && ClosesRawAt(text, p, a)
  {
    var s := Lexed(text, true);
    p := LexedShape.Covering(text, 0, a);
    LexedShape.KeptChar(text, a);
    StepShape(text, p);
    if Step(text, p).kind == Code { LexedShape.CodeIsOne(text, p); }
    if IsComment(Step(text, p)) { LexedShape.CommentShape(text, p); }
    if Step(text, p).bodyStart <= a < Step(text, p).bodyEnd { LexedShape.InteriorBlank(text, p, a); }
    HashIsRaw(text, p, a);
    if a < Step(text, p).bodyStart {
      OpenerGoesOn(text, p, a);
      MarksKept(text, p, a + 1);
    }
    CloserQuote(text, p);
  }

  /** The attribute does not follow directly on a raw-string prefix or closer. */
  predicate ClearAttr(s: string, a: nat)
    requires a < |s|
  {
    a == 0 || (s[a - 1] != 'r' && s[a - 1] != '#' && s[a - 1] != '"')
  }

  /** A `#` among a raw string's marks follows `r`, `"` or another `#`. */
  lemma HashMark(text: string, p: nat, k: nat)
    requires p < |text| && RawPrefixLen(text, p) > 0 && Step(text, p) == RawStep(text, p) && p <= k < Step(text, p).stop
    requires !(Step(text, p).bodyStart <= k < Step(text, p).bodyEnd) && k < |text| && text[k] == '#'
    ensures p < k && !(Step(text, p).bodyStart <= k - 1 < Step(text, p).bodyEnd)
    ensures text[k - 1] == 'r' || text[k - 1] == '#' || text[k - 1] == '"'
  {
    var j := RawR(text, p);
    if j + 1 < k < HashEnd(text, j + 1) {
      LexedShape.HashRun(text, j + 1, k - 1);
    }
  }

  /** A local check that an attribute starts in code. */
  lemma ClearAttrIsVisited(text: string, a: nat)
    requires a < |text| && Lexed(text, true)[a] == '#' && ClearAttr(Lexed(text, true), a)
    ensures Stands(text, a)
  {
    var p := LexedShape.Covering(text, 0, a);
    LexedShape.KeptChar(text, a);
    if Step(text, p).kind == Code {
      LexedShape.CodeIsOne(text, p);
    } else {
      InLiteral(text, p, a);
    }
  }

  lemma InLiteral(text: string, p: nat, a: nat)
    requires p <= a < |text| && Stands(text, p) && a < Step(text, p).stop && Step(text, p).kind != Code
    requires Lexed(text, true)[a] == '#' && text[a] == '#'
    ensures !ClearAttr(Lexed(text, true), a)
  {
    StepShape(text, p);
    if Step(text, p).bodyStart <= a < Step(text, p).bodyEnd {
      LexedShape.InteriorBlank(text, p, a);
    } else {
      if IsComment(Step(text, p)) { LexedShape.CommentShape(text, p); }
      HashIsRaw(text, p, a);
      HashMark(text, p, a);
      MarksKept(text, p, a - 1);
    }
  }

  // ----- sweeping over the effects -----

  /** Regions are at least two wide and end where the walk stands. */
  ghost predicate Regions(text: string, effects: seq<Effect>)
  {
    |effects| == |text| && forall a :: 0 <= a < |text| && effects[a].Cut? ==> a + 2 <= effects[a].end <= |text| && Stands(text, effects[a].end)
  }

  /** How far the regions that start before `a` reach. */
  ghost function Reach(effects: seq<Effect>, a: nat): nat
    requires a <= |effects|
  {
    if a == 0 then 0
    else
      var r := Reach(effects, a - 1);
      if effects[a - 1].Cut? && effects[a - 1].end > r then effects[a - 1].end else r
  }

  /** `a` lies inside a region that starts earlier. */
  ghost predicate Inside(effects: seq<Effect>, a: nat)
    requires a <= |effects|
  {
    exists b :: 0 <= b < a && effects[b].Cut? && a < effects[b].end
  }

  lemma {:induction false} ReachInside(effects: seq<Effect>, a: nat, k: nat)
    requires a <= |effects|
    ensures k < Reach(effects, a) <==> exists b :: 0 <= b < a && effects[b].Cut? && k < effects[b].end
  {
    if a > 0 {
      ReachInside(effects, a - 1, k);
    }
  }

  lemma {:induction false} ReachStands(text: string, effects: seq<Effect>, a: nat)
    requires Regions(text, effects) && a <= |text|
    ensures Reach(effects, a) <= |text| && Stands(text, Reach(effects, a))
  {
    if a > 0 {
      ReachStands(text, effects, a - 1);
    }
  }

  ghost predicate KeepsVisits(text: string, out: string)
  {
    |text| == |out| && forall p :: Stands(text, p) ==> Stands(out, p)
  }

  /** `out` is the text after the effects before `a`: it stands wherever the text stood and throughout the regions
      that reach past `a`, and beyond them it is the text. */
  ghost predicate Swept(text: string, effects: seq<Effect>, out: string, a: nat)
    requires a <= |effects|
  {
    && KeepsVisits(text, out) && LexerBlanking.SameFrom(text, out, Reach(effects, a))
    && forall k :: a <= k <= Reach(effects, a) ==> Stands(out, k)
  }

  lemma SweptStart(text: string, effects: seq<Effect>)
    ensures Swept(text, effects, text, 0)
  {
  }

  lemma SweptKeep(text: string, effects: seq<Effect>, out: string, a: nat)
    requires a < |effects| && Swept(text, effects, out, a) && !effects[a].Cut?
    ensures Swept(text, effects, out, a + 1)
  {
  }

  lemma CutStands(out: string, a: nat, end: nat, k: nat)
    requires a + 2 <= end <= |out| && Stands(out, a) && Stands(out, end) && (a <= k <= end || Stands(out, k))
    ensures Stands(BlankRange(out, a, end), k)
  {
    var out' := BlankRange(out, a, end);
    if a <= k <= end {
      LexerBlanking.VisitsBefore(out, out', a, end, 0, a);
      LexerBlanking.VisitsInside(out, out', a, end, a, k);
      LexerBlanking.VisitTrans(out', 0, a, k);
    } else {
      LexerBlanking.VisitsKept(out, out', a, end, k);
    }
  }

  /** A cut that starts where `out` stands. */
  lemma SweptCut(text: string, effects: seq<Effect>, out: string, a: nat)
    requires Regions(text, effects) && a < |text| && Swept(text, effects, out, a) && effects[a].Cut?
    requires Stands(text, a) || a < Reach(effects, a)
    ensures Swept(text, effects, BlankRange(out, a, effects[a].end), a + 1)
    ensures Lexed(BlankRange(out, a, effects[a].end), true) == BlankRange(Lexed(out, true), a, effects[a].end)
  {
    var end := effects[a].end;
    var out' := BlankRange(out, a, end);
    assert Stands(out, a) && Stands(out, end);
    forall k | Stands(out, k)
      ensures Stands(out', k)
    {
      CutStands(out, a, end, k);
    }
    forall k | a <= k <= end
      ensures Stands(out', k)
    {
      CutStands(out, a, end, k);
    }
    LexerBlanking.LexCommutes(out, out', a, end, true);
  }

  // ----- good starts: the two orders agree -----

  ghost predicate Uninterrupted(effects: seq<Effect>)
  {
    forall a :: 0 <= a < |effects| ==> effects[a].Keep? || effects[a].Cut?
  }

  /** Every region starts where the walk stands or inside an earlier region. */
  ghost predicate GoodStart(text: string, effects: seq<Effect>, a: nat)
    requires a <= |effects|
  {
    Stands(text, a) || Inside(effects, a)
  }

  ghost predicate GoodStarts(text: string, effects: seq<Effect>)
  {
    forall a :: 0 <= a < |effects| && effects[a].Cut? ==> GoodStart(text, effects, a)
  }

  ghost predicate Agree(effects: seq<Effect>, out: string, a: nat)
    requires a <= |effects|
  {
    Apply(effects, Lexed(out, true), a)
      == match Apply(effects, out, a) case Pruned(t) => Pruned(Lexed(t, true)) case Error(pos) => Error(pos)
  }

  lemma AgreeKeep(effects: seq<Effect>, out: string, a: nat)
    requires a < |effects| && effects[a].Keep?
    ensures Agree(effects, out, a) <==> Agree(effects, out, a + 1)
  {
  }

  lemma AgreeCut(effects: seq<Effect>, out: string, a: nat)
    requires a < |effects| && effects[a].Cut?
    requires Lexed(BlankRange(out, a, effects[a].end), true) == BlankRange(Lexed(out, true), a, effects[a].end)
    ensures Agree(effects, out, a) <==> Agree(effects, BlankRange(out, a, effects[a].end), a + 1)
  {
  }

  /** One position that keeps the text or cuts at a good start. */
  lemma SweptStep(text: string, effects: seq<Effect>, out: string, a: nat) returns (out': string)
    requires Regions(text, effects) && Uninterrupted(effects) && a < |text| && Swept(text, effects, out, a)
    requires effects[a].Cut? ==> GoodStart(text, effects, a)
    ensures Swept(text, effects, out', a + 1) && (Agree(effects, out, a) <==> Agree(effects, out', a + 1))
  {
    if effects[a].Cut? {
      ReachInside(effects, a, a);
      SweptCut(text, effects, out, a);
      AgreeCut(effects, out, a);
      out' := BlankRange(out, a, effects[a].end);
    } else {
      SweptKeep(text, effects, out, a);
      AgreeKeep(effects, out, a);
      out' := out;
    }
  }

  ghost predicate StepsTo(x: string, b: nat, x': string, swept: (string, nat) -> bool, agree: (string, nat) -> bool)
  {
    swept(x', b + 1) && (agree(x, b) <==> agree(x', b + 1))
  }

  /** Every position in [a, c) can be stepped over, from any text that `swept` holds of, without changing `agree`. */
  ghost predicate Steps(a: nat, c: nat, swept: (string, nat) -> bool, agree: (string, nat) -> bool)
  {
    forall x, b {:trigger swept(x, b)} :: a <= b < c && swept(x, b) ==> exists x' :: StepsTo(x, b, x', swept, agree)
  }

  lemma {:induction false} StepAll(out: string, a: nat, c: nat, swept: (string, nat) -> bool, agree: (string, nat) -> bool)
    returns (last: string)
    requires a <= c && swept(out, a) && Steps(a, c, swept, agree)
    ensures swept(last, c) && (agree(out, a) <==> agree(last, c))
    decreases c - a
  {
    if a == c {
      last := out;
    } else {
      var next :| StepsTo(out, a, next, swept, agree);
      last := StepAll(next, a + 1, c, swept, agree);
    }
  }

  /** Up to a position before which every region starts well. */
  lemma SweepTo(text: string, effects: seq<Effect>, c: nat) returns (last: string)
    requires Regions(text, effects) && Uninterrupted(effects) && c <= |text|
    requires forall a :: 0 <= a < c && effects[a].Cut? ==> GoodStart(text, effects, a)
    ensures Swept(text, effects, last, c) && (Agree(effects, text, 0) <==> Agree(effects, last, c))
  {
    var swept := (x: string, b: nat) => b <= |text| && Swept(text, effects, x, b);
    var agree := (x: string, b: nat) => b <= |effects| && Agree(effects, x, b);
    forall x, b | 0 <= b < c && swept(x, b)
      ensures exists x' :: StepsTo(x, b, x', swept, agree)
    {
      var x' := SweptStep(text, effects, x, b);
      assert StepsTo(x, b, x', swept, agree);
    }
    SweptStart(text, effects);
    last := StepAll(text, 0, c, swept, agree);
  }

  lemma GoodAgree(text: string, effects: seq<Effect>)
    requires Regions(text, effects) && Uninterrupted(effects) && GoodStarts(text, effects)
    ensures Agree(effects, text, 0)
  {
    var last := SweepTo(text, effects, |text|);
  }

  // ----- a bad start: they differ -----

  /** The raw string at `p`, its opener ending by `q`, runs on past `q`. */
  ghost predicate RunsPast(x: string, p: nat, len: nat, hashes: nat, q: nat)
  {
    OpensRaw(x, p, len, hashes) && ClosesBeyond(x, p + len, hashes, q)
  }

  /** Read from `body`, a raw string with `hashes` hashes is not closed by `q`. */
  ghost predicate ClosesBeyond(x: string, body: nat, hashes: nat, q: nat)
  {
    body <= q < |x| && FindClose(x, hashes, body) > q
  }

  /** The walk stands at `p`, where a raw string with `hashes` hashes opens with `len` characters. */
  ghost predicate OpensRaw(x: string, p: nat, len: nat, hashes: nat)
  {
    && p < |x| && Stands(x, p) && len > 0 && RawPrefixLen(x, p) == len && RawHashes(x, p) == hashes
    && Step(x, p) == RawStep(x, p)
  }

  lemma NoNewCloser(x: string, a: nat, e: nat, hashes: nat, i: nat)
    ensures ClosesRaw(BlankRange(x, a, e), i, hashes) ==> ClosesRaw(x, i, hashes)
  {
    var x' := BlankRange(x, a, e);
    if ClosesRaw(x', i, hashes) {
      forall h | i < h <= i + hashes
        ensures x[h] == '#'
      {
        assert x'[h] == '#';
      }
    }
  }

  /** Blanking removes closers and adds none. */
  lemma {:induction false} FindCloseGrows(x: string, a: nat, e: nat, hashes: nat, i: nat)
    requires i <= |x|
    ensures FindClose(BlankRange(x, a, e), hashes, i) >= FindClose(x, hashes, i)
    decreases |x| - i
  {
    if i < |x| && !ClosesRaw(x, i, hashes) {
      NoNewCloser(x, a, e, hashes, i);
      FindCloseGrows(x, a, e, hashes, i + 1);
    }
  }

  lemma RawStays(x: string, p: nat, len: nat, hashes: nat, a: nat, e: nat)
    requires OpensRaw(x, p, len, hashes) && p + len <= a && a + 2 <= e <= |x|
    ensures OpensRaw(BlankRange(x, a, e), p, len, hashes)
  {
    var x' := BlankRange(x, a, e);
    LexerBlanking.VisitsBefore(x, x', a, e, 0, p);
    LexerBlanking.RawPrefixCut(x, x', a, e, p);
  }

  /** What every remaining cut keeps, the sweep keeps. */
  ghost predicate CutsKeep(n: nat, q: nat, holds: string -> bool)
  {
    forall x, a, e {:trigger holds(BlankRange(x, a, e))} :: |x| == n && holds(x) && q < a && a + 2 <= e <= n ==> holds(BlankRange(x, a, e))
  }

  lemma {:induction false} SweepKeeps(text: string, effects: seq<Effect>, x: string, a: nat, q: nat, holds: string -> bool)
    requires Regions(text, effects) && Uninterrupted(effects) && q < a <= |text| && |x| == |text|
    requires CutsKeep(|text|, q, holds) && holds(x)
    ensures Apply(effects, x, a).Pruned? && holds(Apply(effects, x, a).text)
    decreases |text| - a
  {
    if a < |text| {
      if effects[a].Cut? {
        assert holds(BlankRange(x, a, effects[a].end));
        SweepKeeps(text, effects, BlankRange(x, a, effects[a].end), a + 1, q, holds);
      } else {
        SweepKeeps(text, effects, x, a + 1, q, holds);
      }
    }
  }

  lemma OpensSwept(text: string, effects: seq<Effect>, x: string, a: nat, p: nat, len: nat, hashes: nat, q: nat)
    requires Regions(text, effects) && Uninterrupted(effects) && q < a <= |text| && |x| == |text|
    requires OpensRaw(x, p, len, hashes) && p + len <= q
    ensures Apply(effects, x, a).Pruned? && OpensRaw(Apply(effects, x, a).text, p, len, hashes)
  {
    var opens := (y: string) => OpensRaw(y, p, len, hashes);
    forall y, b, e | |y| == |text| && opens(y) && q < b && b + 2 <= e <= |text|
      ensures opens(BlankRange(y, b, e))
    {
      RawStays(y, p, len, hashes, b, e);
    }
    SweepKeeps(text, effects, x, a, q, opens);
  }

  lemma BeyondSwept(text: string, effects: seq<Effect>, x: string, a: nat, body: nat, hashes: nat, q: nat)
    requires Regions(text, effects) && Uninterrupted(effects) && q < a <= |text| && |x| == |text| && ClosesBeyond(x, body, hashes, q)
    ensures Apply(effects, x, a).Pruned? && ClosesBeyond(Apply(effects, x, a).text, body, hashes, q)
  {
    var beyond := (y: string) => ClosesBeyond(y, body, hashes, q);
    forall y, b, e | |y| == |text| && beyond(y) && q < b && b + 2 <= e <= |text|
      ensures beyond(BlankRange(y, b, e))
    {
      FindCloseGrows(y, b, e, hashes, body);
    }
    SweepKeeps(text, effects, x, a, q, beyond);
  }

  /** What lies before all remaining regions stays. */
  lemma {:induction false} EarlierStays(effects: seq<Effect>, x: string, a: nat, q: nat)
    requires Uninterrupted(effects) && q < a <= |effects| && q < |x|
    ensures Apply(effects, x, a).Pruned? && |Apply(effects, x, a).text| == |x| && Apply(effects, x, a).text[q] == x[q]
    decreases |effects| - a
  {
    if a < |effects| {
      if effects[a].Cut? {
        EarlierStays(effects, BlankRange(x, a, effects[a].end), a + 1, q);
      } else {
        EarlierStays(effects, x, a + 1, q);
      }
    }
  }

  lemma ClosingHashGone(x: string, q: nat, hashes: nat, a: nat, e: nat, body: nat)
    requires body <= q < |x| && FindClose(x, hashes, body) == q && q < a <= q + hashes && a < e
    ensures FindClose(BlankRange(x, a, e), hashes, body) > q
  {
    FindCloseGrows(x, a, e, hashes, body);
    LexedShape.HashesOfCloser(x, q, hashes, a);
    assert BlankRange(x, a, e)[a] == ' ';
    assert !ClosesRaw(BlankRange(x, a, e), q, hashes);
  }

  /** Blanking a closing hash makes the raw string run on past its quote. */
  lemma ClosingHashCut(x: string, p: nat, a: nat, e: nat)
    requires p < a && ClosesRawAt(x, p, a) && a + 2 <= e <= |x|
    ensures RunsPast(BlankRange(x, a, e), p, RawPrefixLen(x, p), RawHashes(x, p), Step(x, p).bodyEnd)
  {
    var len := RawPrefixLen(x, p);
    CloserQuote(x, p);
    RawStays(x, p, len, RawHashes(x, p), a, e);
    ClosingHashGone(x, Step(x, p).bodyEnd, RawHashes(x, p), a, e, p + len);
  }

  lemma RunsPastBlank(x: string, p: nat, len: nat, hashes: nat, q: nat)
    requires OpensRaw(x, p, len, hashes) && ClosesBeyond(x, p + len, hashes, q)
    ensures Lexed(x, true)[q] != '"'
  {
    LexedShape.InteriorBlank(x, p, q);
  }

  lemma RunsPastLexed(text: string, effects: seq<Effect>, x: string, a: nat, p: nat, len: nat, hashes: nat, q: nat)
    returns (t: string)
    requires Regions(text, effects) && Uninterrupted(effects) && q < a <= |text| && |x| == |text| && RunsPast(x, p, len, hashes, q)
    ensures Apply(effects, x, a) == Pruned(t) && |t| == |text| && Lexed(t, true)[q] != '"'
  {
    OpensSwept(text, effects, x, a, p, len, hashes, q);
    BeyondSwept(text, effects, x, a, p + len, hashes, q);
    EarlierStays(effects, x, a, q);
    t := Apply(effects, x, a).text;
    RunsPastBlank(t, p, len, hashes, q);
  }

  /** Pruning first, the quote before the hash is lexed away; lexing first, it is kept. */
  lemma QuoteTells(text: string, effects: seq<Effect>, out: string, a: nat, p: nat, len: nat, hashes: nat, q: nat)
    requires Regions(text, effects) && Uninterrupted(effects) && a < |text| && |out| == |text| && effects[a].Cut? && q < a
    requires RunsPast(BlankRange(out, a, effects[a].end), p, len, hashes, q) && Lexed(out, true)[q] == '"'
    ensures !Agree(effects, out, a)
  {
    var t := RunsPastLexed(text, effects, BlankRange(out, a, effects[a].end), a + 1, p, len, hashes, q);
    EarlierStays(effects, BlankRange(Lexed(out, true), a, effects[a].end), a + 1, q);
  }

  /** A cut from a closing hash that no earlier region reaches keeps the two orders apart. */
  lemma BadCutDiffers(text: string, effects: seq<Effect>, out: string, a: nat, p: nat)
    requires Regions(text, effects) && Uninterrupted(effects) && a < |text| && |out| == |text| && effects[a].Cut?
    requires p < a && ClosesRawAt(out, p, a)
    ensures !Agree(effects, out, a)
  {
    ClosingHashCut(out, p, a, effects[a].end);
    StepShape(out, p);
    MarksKept(out, p, Step(out, p).bodyEnd);
    QuoteTells(text, effects, out, a, p, RawPrefixLen(out, p), RawHashes(out, p), Step(out, p).bodyEnd);
  }

  /** The raw string is the same in `out`, since no earlier region reaches into it. */
  lemma BadStartKept(text: string, effects: seq<Effect>, out: string, a: nat, p: nat)
    requires Regions(text, effects) && a < |text| && Swept(text, effects, out, a) && Reach(effects, a) <= a
    requires p < a && ClosesRawAt(text, p, a)
    ensures ClosesRawAt(out, p, a)
  {
    var r := Reach(effects, a);
    ReachStands(text, effects, a);
    if p < r {
      LexerBlanking.VisitBetween(text, 0, p, r);
      LexerBlanking.VisitStep(text, p, r);
      assert false;
    }
    LexerBlanking.StepAfter(text, out, r, p);
    LexerBlanking.RawPrefixAfter(text, out, r, p);
  }

  /** Every region that does not start where the walk stands starts at a closing hash. */
  ghost predicate RawStarts(text: string, effects: seq<Effect>)
  {
    forall a :: 0 <= a < |effects| && effects[a].Cut? && !Stands(text, a) ==> exists p: nat :: p < a && ClosesRawAt(text, p, a)
  }

  lemma BadHere(text: string, effects: seq<Effect>, out: string, a: nat)
    requires Regions(text, effects) && Uninterrupted(effects) && RawStarts(text, effects) && a < |text| && Swept(text, effects, out, a)
    requires effects[a].Cut? && !Stands(text, a) && Reach(effects, a) <= a
    ensures !Agree(effects, out, a)
  {
    var p: nat :| p < a && ClosesRawAt(text, p, a);
    BadStartKept(text, effects, out, a, p);
    BadCutDiffers(text, effects, out, a, p);
  }

  ghost predicate FirstBad(text: string, effects: seq<Effect>, c: nat)
  {
    && c < |effects| && effects[c].Cut? && !GoodStart(text, effects, c)
    && forall b :: 0 <= b < c && effects[b].Cut? ==> GoodStart(text, effects, b)
  }

  lemma BadDiffers(text: string, effects: seq<Effect>, c: nat)
    requires Regions(text, effects) && Uninterrupted(effects) && RawStarts(text, effects) && FirstBad(text, effects, c)
    ensures !Agree(effects, text, 0)
  {
    var out := SweepTo(text, effects, c);
    ReachInside(effects, c, c);
    BadHere(text, effects, out, c);
  }

  lemma {:induction false} FindBad(text: string, effects: seq<Effect>, n: nat) returns (c: nat)
    requires n <= |effects| && exists a :: 0 <= a < n && effects[a].Cut? && !GoodStart(text, effects, a)
    ensures c < n && FirstBad(text, effects, c)
  {
    if exists a :: 0 <= a < n - 1 && effects[a].Cut? && !GoodStart(text, effects, a) {
      c := FindBad(text, effects, n - 1);
    } else {
      c := n - 1;
    }
  }

  // ----- refusals and file-wide cuts -----

  ghost predicate SameLines(x: string, y: string)
  {
    |x| == |y| && forall k :: 0 <= k < |x| ==> (x[k] == '\n' <==> y[k] == '\n')
  }

  lemma {:induction false} InterruptedSame(effects: seq<Effect>, x: string, y: string, a: nat)
    requires a <= |effects| && SameLines(x, y)
    requires exists c :: a <= c < |effects| && (effects[c].CutAll? || effects[c].Fail?)
    ensures Apply(effects, x, a) == Apply(effects, y, a)
    ensures Apply(effects, x, a).Pruned? ==> Apply(effects, x, a).text == BlankRange(x, 0, |x|)
    decreases |effects| - a
  {
    match effects[a]
    case Keep => InterruptedSame(effects, x, y, a + 1);
    case Cut(end) => {
      InterruptedSame(effects, BlankRange(x, a, end), BlankRange(y, a, end), a + 1);
      assert BlankRange(BlankRange(x, a, end), 0, |x|) == BlankRange(x, 0, |x|);
    }
    case CutAll => {
      assert BlankRange(x, 0, |x|) == BlankRange(y, 0, |y|);
    }
    case Fail(pos) => {}
  }

  lemma LexedLines(text: string)
    ensures SameLines(text, Lexed(text, true))
  {
    forall k | 0 <= k < |text|
      ensures text[k] == '\n' <==> Lexed(text, true)[k] == '\n'
    {
      LexedAt(text, true, k);
    }
  }

  lemma BlankLexed(x: string)
    ensures Lexed(BlankRange(x, 0, |x|), true) == BlankRange(x, 0, |x|)
  {
    var t := BlankRange(x, 0, |x|);
    forall k | 0 <= k < |t|
      ensures Lexed(t, true)[k] == t[k]
    {
      LexedAt(t, true, k);
    }
  }

  lemma InterruptedAgree(text: string, effects: seq<Effect>)
    requires !Uninterrupted(effects)
    ensures Agree(effects, text, 0)
  {
    assert exists c :: 0 <= c < |effects| && (effects[c].CutAll? || effects[c].Fail?);
    LexedLines(text);
    InterruptedSame(effects, text, Lexed(text, true), 0);
    BlankLexed(text);
  }

  // ----- the law -----

  lemma AllRegions(text: string, cls: CharClass)
    ensures Regions(text, Effects(Lexed(text, true), cls)) && RawStarts(text, Effects(Lexed(text, true), cls))
  {
    var effects := Effects(Lexed(text, true), cls);
    forall a | 0 <= a < |text| && effects[a].Cut?
      ensures a + 2 <= effects[a].end <= |text| && Stands(text, effects[a].end)
      ensures !Stands(text, a) ==> exists p: nat :: p < a && ClosesRawAt(text, p, a)
    {
      RegionBounds(text, cls, a);
      if !Stands(text, a) {
        var p := UnvisitedAttr(text, a);
      }
    }
  }

  /** Pruning the source and lexing it equals lexing it and pruning that, refusals included, if and only if the pass
      is cut short by a refusal or a file-wide gate, or every region starts where the walk stands or inside an
      earlier region. */
  lemma PruneCommutesExactly(text: string, cls: CharClass)
    ensures var effects := Effects(Lexed(text, true), cls);
            Agree(effects, text, 0) <==> !Uninterrupted(effects) || GoodStarts(text, effects)
  {
    var effects := Effects(Lexed(text, true), cls);
    AllRegions(text, cls);
    if !Uninterrupted(effects) {
      InterruptedAgree(text, effects);
    } else if GoodStarts(text, effects) {
      GoodAgree(text, effects);
    } else {
      var c := FindBad(text, effects, |effects|);
      BadDiffers(text, effects, c);
    }
  }

  ghost predicate AttrsVisited(text: string, cls: CharClass)
  {
    forall a :: 0 <= a < |text| && EffectAt(Lexed(text, true), a, cls).Cut? ==> Stands(text, a)
  }

  /** In particular they agree, on any text, when each gating attribute starts where the walk stands. */
  lemma PruneCommutesWithLex(text: string, cls: CharClass)
    requires AttrsVisited(text, cls)
    ensures Apply(Effects(Lexed(text, true), cls), Lexed(text, true), 0)
         == match StripCfgTest(text, cls) case Pruned(t) => Pruned(Lexed(t, true)) case Error(pos) => Error(pos)
  {
    var effects := Effects(Lexed(text, true), cls);
    forall a | 0 <= a < |effects| && effects[a].Cut?
      ensures GoodStart(text, effects, a)
    {
      assert EffectAt(Lexed(text, true), a, cls).Cut?;
    }
    PruneCommutesExactly(text, cls);
    assert Agree(effects, text, 0);
  }

  /** So the pruned source still lexes to well-nested text. */
  lemma PrunedStaysNested(text: string, cls: CharClass)
    requires Nested(Lexed(text, true)) && AttrsVisited(text, cls) && StripCfgTest(text, cls).Pruned?
    ensures Nested(Lexed(StripCfgTest(text, cls).text, true))
  {
    PruneCommutesWithLex(text, cls);
    PruneProps.LexedRemainderNested(text, cls);
  }
}

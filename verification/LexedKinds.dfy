/** What lexing does to each kind of token, under either setting of the flag. */
module LexedKinds {

  import opened Lexer

  function Blank(c: char): char
  {
    if c == '\n' then '\n' else ' '
  }

  /** Code stays; comments and the bodies of char literals go; the bodies of strings go if and only if the flag is set;
      quotes, prefixes and hash marks stay; newlines stay everywhere. */
  function KindAt(t: Token, strings: bool, k: nat, c: char): char
  {
    var inside := t.bodyStart <= k < t.bodyEnd;
    match t.kind
    case Code => c
    case LineComment => Blank(c)
    case BlockComment => Blank(c)
    case CharLiteral => if inside then Blank(c) else c
    case RawString => if inside && strings then Blank(c) else c
    case PlainString => if inside && strings then Blank(c) else c
  }

  /** A comment is blanked whole. */
  lemma {:induction false} CommentsWhole(text: string, i: nat, n: nat)
    requires i <= |text| && n < |Walk(text, i)|
    ensures var t := Walk(text, i)[n];
            t.kind == LineComment || t.kind == BlockComment ==> t.bodyStart == t.start && t.bodyEnd == t.stop
    decreases |text| - i
  {
    StepShape(text, i);
    if n > 0 {
      CommentsWhole(text, Step(text, i).stop, n - 1);
    }
  }

  /** Tokens that tile a text meet only at their ends. */
  lemma {:induction false} TilesApart(toks: seq<Token>, i: nat, n: nat, a: nat, b: nat)
    requires Tiles(toks, i, n) && a < b < |toks|
    ensures toks[a].stop <= toks[b].start
    decreases b - a
  {
    if a + 1 < b {
      TilesApart(toks, i, n, a + 1, b);
    }
  }

  /** So a position of a token lies in no other token's interior. */
  lemma OwnInterior(toks: seq<Token>, n: nat, strings: bool, i: nat, k: nat)
    requires Tiles(toks, 0, n) && i < |toks| && toks[i].start <= k < toks[i].stop
    ensures BlankedAt(toks, strings, k) <==> Blanks(toks[i], strings) && toks[i].bodyStart <= k < toks[i].bodyEnd
  {
    if BlankedAt(toks, strings, k) {
      var j :| 0 <= j < |toks| && Blanks(toks[j], strings) && toks[j].bodyStart <= k < toks[j].bodyEnd;
      if j < i { TilesApart(toks, 0, n, j, i); }
      if i < j { TilesApart(toks, 0, n, i, j); }
    }
  }

  lemma LexedByKind(text: string, strings: bool, i: nat, k: nat)
    requires i < |Tokens(text)| && Tokens(text)[i].start <= k < Tokens(text)[i].stop
    ensures k < |text|
    ensures Lexed(text, strings)[k] == KindAt(Tokens(text)[i], strings, k, text[k])
  {
    var toks := Tokens(text);
    WalkTiles(text, 0);
    TilesWithin(toks, |text|, i);
    LexedAt(text, strings, k);
    OwnInterior(toks, |text|, strings, i, k);
    CommentsWhole(text, 0, i);
  }

  lemma TilesWithin(toks: seq<Token>, n: nat, i: nat)
    requires Tiles(toks, 0, n) && i < |toks|
    ensures toks[i].stop <= n
  {
    if i < |toks| - 1 { TilesApart(toks, 0, n, i, |toks| - 1); }
  }

  /** Every position is in some token, so this fixes the whole lexed text. */
  lemma {:induction false} Covered(text: string, i: nat, k: nat) returns (n: nat)
    requires i <= k < |text|
    ensures n < |Walk(text, i)| && Walk(text, i)[n].start <= k < Walk(text, i)[n].stop
    decreases |text| - i
  {
    StepShape(text, i);
    if k < Step(text, i).stop {
      n := 0;
    } else {
      var m := Covered(text, Step(text, i).stop, k);
      n := m + 1;
    }
  }

  /** What stands at each position of the lexed text, by the token that covers it. */
  lemma LexedExactly(text: string, strings: bool, k: nat) returns (i: nat)
    requires k < |text|
    ensures i < |Tokens(text)| && Tokens(text)[i].start <= k < Tokens(text)[i].stop
    ensures Lexed(text, strings)[k] == KindAt(Tokens(text)[i], strings, k, text[k])
  {
    i := Covered(text, 0, k);
    LexedByKind(text, strings, i, k);
  }

  // ----- the spans -----

  /** A string span is the body of a string token, raw exactly if the token is. */
  lemma {:induction false} StringSpansExact(toks: seq<Token>, sp: Span)
    ensures sp in StringSpans(toks)
       <==> exists t :: t in toks && t.bodyStart == sp.start && t.bodyEnd == sp.stop
                     && ((t.kind == RawString && sp.isRaw) || (t.kind == PlainString && !sp.isRaw))
  {
    if toks != [] {
      var n := |toks| - 1;
      StringSpansExact(toks[..n], sp);
      assert toks == toks[..n] + [toks[n]];
    }
  }

  /** A comment span is a comment token. */
  lemma {:induction false} CommentSpansExact(toks: seq<Token>, a: nat, b: nat)
    ensures (a, b) in CommentSpans(toks)
       <==> exists t :: t in toks && t.start == a && t.stop == b && (t.kind == LineComment || t.kind == BlockComment)
  {
    if toks != [] {
      var n := |toks| - 1;
      CommentSpansExact(toks[..n], a, b);
      assert toks == toks[..n] + [toks[n]];
    }
  }
}

/** Rendering a well-separated token list and walking the text recovers the tokens exactly. */
module LexerRoundTrip {
  import opened Lexer

  /** Inside of a block comment: characters and nested comments. */
  datatype Body = Done | Text(c: char, rest: Body) | Nest(inner: Body, rest: Body)

  /** A plain character or an escape pair. */
  datatype CharUnit = Lit(c: char) | Esc(c: char)

  datatype CharBody = One(c: char) | Escaped(first: char, rest: seq<CharUnit>)

  datatype Piece =
    | Plain(c: char)
    | Line(body: string)
    | Block(inner: Body)
    | Raw(byte: bool, hashes: nat, body: string)
    | Str(byte: bool, units: seq<CharUnit>)
    | Chr(byte: bool, lit: CharBody)

  // ----- rendering -----

  function RenderBody(b: Body): string
  {
    match b
    case Done => ""
    case Text(c, rest) => [c] + RenderBody(rest)
    case Nest(inner, rest) => "/*" + RenderBody(inner) + "*/" + RenderBody(rest)
  }

  function RenderUnits(us: seq<CharUnit>): string
  {
    if us == [] then ""
    else (match us[0] case Lit(c) => [c] case Esc(c) => ['\\', c]) + RenderUnits(us[1..])
  }

  function Hashes(n: nat): (s: string)
    ensures |s| == n && forall i :: 0 <= i < n ==> s[i] == '#'
  {
    seq(n, i => '#')
  }

  function BytePrefix(byte: bool): string
  {
    if byte then "b" else ""
  }

  function RenderChar(lit: CharBody): string
  {
    match lit
    case One(c) => [c]
    case Escaped(first, rest) => ['\\', first] + RenderUnits(rest)
  }

  function Render(p: Piece): string
  {
    match p
    case Plain(c) => [c]
    case Line(body) => "//" + body
    case Block(inner) => "/*" + RenderBody(inner) + "*/"
    case Raw(byte, hashes, body) =>
      BytePrefix(byte) + "r" + Hashes(hashes) + "\"" + body + "\"" + Hashes(hashes)
    case Str(byte, units) => BytePrefix(byte) + "\"" + RenderUnits(units) + "\""
    case Chr(byte, lit) => BytePrefix(byte) + "'" + RenderChar(lit) + "'"
  }

  function RenderAll(ps: seq<Piece>): string
  {
    if ps == [] then "" else Render(ps[0]) + RenderAll(ps[1..])
  }

  // ----- well-separated lists -----

  /** No character pair inside the comment reads as an unintended opener or closer. */
  predicate BodyOk(b: Body)
  {
    match b
    case Done => true
    case Text(c, rest) =>
      var next := (RenderBody(rest) + "*/")[0];
      !(c == '/' && next == '*') && !(c == '*' && next == '/') && BodyOk(rest)
    case Nest(inner, rest) => BodyOk(inner) && BodyOk(rest)
  }

  predicate UnitsOk(us: seq<CharUnit>, close: char)
  {
    forall i :: 0 <= i < |us| && us[i].Lit? ==> us[i].c != close && us[i].c != '\\'
  }

  predicate CharOk(lit: CharBody)
  {
    match lit
    case One(c) => c != '\\'
    case Escaped(first, rest) => UnitsOk(rest, '\'')
  }

  /** The rest of the text after some `#` marks is a quote. */
  predicate HashesThenQuote(s: string)
  {
    CharAt(s, HashEnd(s, 0), '"')
  }

  /** A lone code character must not begin a longer token together with what follows. */
  predicate PlainOk(c: char, after: string)
  {
    && c != '"'
    && (c == '/' ==> !CharAt(after, 0, '/') && !CharAt(after, 0, '*'))
    && (c == 'r' ==> !HashesThenQuote(after))
    && (c == 'b' ==> !CharAt(after, 0, '"') && !CharAt(after, 0, '\'') && !(CharAt(after, 0, 'r') && HashesThenQuote(after[1..])))
    && (c == '\'' ==> !CharAt(after, 0, '\\') && !CharAt(after, 1, '\''))
  }

  predicate PieceOk(p: Piece, after: string)
  {
    match p
    case Plain(c) => PlainOk(c, after)
    case Line(body) => '\n' !in body && (after == "" || after[0] == '\n')
    case Block(inner) => BodyOk(inner)
    case Raw(_, hashes, body) => forall k :: 0 <= k < |body| ==> !ClosesRaw(body, k, hashes)
    case Str(_, units) => UnitsOk(units, '"')
    case Chr(_, lit) => CharOk(lit)
  }

  predicate WellSeparated(ps: seq<Piece>)
  {
    ps == [] || (PieceOk(ps[0], RenderAll(ps[1..])) && WellSeparated(ps[1..]))
  }

  // ----- the tokens a list stands for -----

  function OpenLen(p: Piece): nat
  {
    match p
    case Raw(byte, hashes, _) => |BytePrefix(byte)| + 2 + hashes
    case Str(byte, _) => |BytePrefix(byte)| + 1
    case Chr(byte, _) => |BytePrefix(byte)| + 1
    case _ => 0
  }

  function BodyLen(p: Piece): nat
  {
    match p
    case Raw(_, _, body) => |body|
    case Str(_, units) => |RenderUnits(units)|
    case Chr(_, lit) => |RenderChar(lit)|
    case _ => |Render(p)|
  }

  function KindOf(p: Piece): Kind
  {
    match p
    case Plain(_) => Code
    case Line(_) => LineComment
    case Block(_) => BlockComment
    case Raw(_, _, _) => RawString
    case Str(_, _) => PlainString
    case Chr(_, _) => CharLiteral
  }

  function ExpectedToken(p: Piece, at: nat): Token
  {
    if p.Plain? then CodeStep(at)
    else Token(KindOf(p), at, at + |Render(p)|, at + OpenLen(p), at + OpenLen(p) + BodyLen(p))
  }

  function Expected(ps: seq<Piece>, at: nat): seq<Token>
  {
    if ps == [] then [] else [ExpectedToken(ps[0], at)] + Expected(ps[1..], at + |Render(ps[0])|)
  }

  // ----- the inner scans on rendered text -----

  /** `s` stands at position j. */
  ghost predicate Holds(text: string, j: nat, s: string)
  {
    j + |s| <= |text| && text[j..j + |s|] == s
  }

  lemma HoldsAt(text: string, j: nat, s: string, k: nat)
    requires Holds(text, j, s) && k < |s|
    ensures CharAt(text, j + k, s[k])
  {
    assert text[j..j + |s|][k] == text[j + k];
  }

  lemma HoldsParts(text: string, j: nat, a: string, b: string)
    requires Holds(text, j, a + b)
    ensures Holds(text, j, a) && Holds(text, j + |a|, b)
  {
    var s := a + b;
    assert text[j..j + |s|][..|a|] == a && text[j..j + |s|][|a|..] == b;
    assert text[j..j + |a|] == text[j..j + |s|][..|a|];
    assert text[j + |a|..j + |s|] == text[j..j + |s|][|a|..];
  }

  lemma {:induction false} BlockScan(text: string, j: nat, b: Body, depth: nat)
    requires depth >= 1 && BodyOk(b) && Holds(text, j, RenderBody(b) + "*/")
    ensures j + |RenderBody(b)| <= |text|
    ensures BlockEnd(text, j, depth) == BlockEnd(text, j + |RenderBody(b)|, depth)
    decreases b, 2
  {
    match b
    case Done =>
    case Text(c, rest) =>
      var tail := RenderBody(rest) + "*/";
      RenderText(c, rest);
      HoldsParts(text, j, [c], tail);
      TextStep(text, j, c, tail, depth);
      BlockScan(text, j + 1, rest, depth);
    case Nest(inner, rest) =>
      NestScan(text, j, inner, rest, depth);
  }

  lemma RenderText(c: char, rest: Body)
    ensures RenderBody(Text(c, rest)) + "*/" == [c] + (RenderBody(rest) + "*/")
    ensures |RenderBody(Text(c, rest))| == 1 + |RenderBody(rest)|
  {
  }

  lemma RenderNest(inner: Body, rest: Body)
    ensures RenderBody(Nest(inner, rest)) + "*/" == "/*" + ((RenderBody(inner) + "*/") + (RenderBody(rest) + "*/"))
    ensures |RenderBody(Nest(inner, rest))| == 4 + |RenderBody(inner)| + |RenderBody(rest)|
  {
  }

  /** The scan passes a nested comment. */
  lemma {:induction false} NestHead(text: string, j: nat, inner: Body, depth: nat)
    requires depth >= 1 && BodyOk(inner) && CharAt(text, j, '/') && CharAt(text, j + 1, '*')
    requires Holds(text, j + 2, RenderBody(inner) + "*/")
    ensures j + 4 + |RenderBody(inner)| <= |text|
    ensures BlockEnd(text, j, depth) == BlockEnd(text, j + 4 + |RenderBody(inner)|, depth)
    decreases inner, 3
  {
    var k := j + 2 + |RenderBody(inner)|;
    BlockOpens(text, j, depth);
    BlockScan(text, j + 2, inner, depth + 1);
    HoldsParts(text, j + 2, RenderBody(inner), "*/");
    HoldsAt(text, k, "*/", 0);
    HoldsAt(text, k, "*/", 1);
    BlockCloses(text, k, depth + 1);
  }

  lemma {:induction false} NestScan(text: string, j: nat, inner: Body, rest: Body, depth: nat)
    requires depth >= 1 && BodyOk(inner) && BodyOk(rest) && Holds(text, j, RenderBody(Nest(inner, rest)) + "*/")
    ensures j + |RenderBody(Nest(inner, rest))| <= |text|
    ensures BlockEnd(text, j, depth) == BlockEnd(text, j + |RenderBody(Nest(inner, rest))|, depth)
    decreases Nest(inner, rest), 1
  {
    RenderNest(inner, rest);
    var i, r := RenderBody(inner), RenderBody(rest);
    NestHolds(text, j, i, r);
    NestParts(text, j, inner, rest, depth, |i|, |r|);
  }

  lemma {:induction false} NestParts(text: string, j: nat, inner: Body, rest: Body, depth: nat, i: nat, r: nat)
    requires depth >= 1 && BodyOk(inner) && BodyOk(rest) && i == |RenderBody(inner)| && r == |RenderBody(rest)|
    requires CharAt(text, j, '/') && CharAt(text, j + 1, '*')
    requires Holds(text, j + 2, RenderBody(inner) + "*/") && Holds(text, j + 4 + i, RenderBody(rest) + "*/")
    ensures j + 4 + i + r <= |text| && BlockEnd(text, j, depth) == BlockEnd(text, j + 4 + i + r, depth)
    decreases Nest(inner, rest), 0
  {
    NestHead(text, j, inner, depth);
    RestScan(text, j + 4 + i, rest, depth, r, BlockEnd(text, j, depth));
  }

  lemma {:induction false} RestScan(text: string, k: nat, rest: Body, depth: nat, r: nat, end: nat)
    requires depth >= 1 && BodyOk(rest) && r == |RenderBody(rest)| && Holds(text, k, RenderBody(rest) + "*/")
    requires k <= |text| && end == BlockEnd(text, k, depth)
    ensures k + r <= |text| && end == BlockEnd(text, k + r, depth)
    decreases rest, 3
  {
    BlockScan(text, k, rest, depth);
  }

  lemma TextStep(text: string, j: nat, c: char, tail: string, depth: nat)
    requires depth >= 1 && tail != "" && Holds(text, j, [c]) && Holds(text, j + 1, tail)
    requires !(c == '/' && tail[0] == '*') && !(c == '*' && tail[0] == '/')
    ensures BlockEnd(text, j, depth) == BlockEnd(text, j + 1, depth)
  {
    HoldsAt(text, j, [c], 0);
    HoldsAt(text, j + 1, tail, 0);
  }

  lemma BlockOpens(text: string, j: nat, depth: nat)
    requires depth >= 1 && CharAt(text, j, '/') && CharAt(text, j + 1, '*')
    ensures BlockEnd(text, j, depth) == BlockEnd(text, j + 2, depth + 1)
  {
  }

  lemma BlockCloses(text: string, j: nat, depth: nat)
    requires depth >= 1 && CharAt(text, j, '*') && CharAt(text, j + 1, '/')
    ensures BlockEnd(text, j, depth) == BlockEnd(text, j + 2, depth - 1)
  {
  }

  lemma NestHolds(text: string, j: nat, i: string, r: string)
    requires Holds(text, j, "/*" + ((i + "*/") + (r + "*/")))
    ensures CharAt(text, j, '/') && CharAt(text, j + 1, '*')
    ensures Holds(text, j + 2, i + "*/")
    ensures var k := j + 2 + |i|;
            CharAt(text, k, '*') && CharAt(text, k + 1, '/') && Holds(text, k + 2, r + "*/")
  {
    HoldsParts(text, j, "/*", (i + "*/") + (r + "*/"));
    HoldsAt(text, j, "/*", 0);
    HoldsAt(text, j, "/*", 1);
    HoldsParts(text, j + 2, i + "*/", r + "*/");
    HoldsParts(text, j + 2, i, "*/");
    HoldsAt(text, j + 2 + |i|, "*/", 0);
    HoldsAt(text, j + 2 + |i|, "*/", 1);
  }

  lemma UnitsSplit(us: seq<CharUnit>)
    requires us != []
    ensures RenderUnits(us) == (if us[0].Lit? then [us[0].c] else ['\\', us[0].c]) + RenderUnits(us[1..])
  {
  }

  lemma {:induction false} StrScan(text: string, j: nat, us: seq<CharUnit>)
    requires UnitsOk(us, '"') && Holds(text, j, RenderUnits(us))
    ensures StrEnd(text, j) == StrEnd(text, j + |RenderUnits(us)|)
    decreases |us|
  {
    if us != [] {
      UnitsSplit(us);
      var head := if us[0].Lit? then [us[0].c] else ['\\', us[0].c];
      HoldsParts(text, j, head, RenderUnits(us[1..]));
      StrUnit(text, j, us[0], head);
      StrScan(text, j + |head|, us[1..]);
    }
  }

  lemma StrUnit(text: string, j: nat, u: CharUnit, head: string)
    requires head == (if u.Lit? then [u.c] else ['\\', u.c]) && (u.Lit? ==> u.c != '"' && u.c != '\\') && Holds(text, j, head)
    ensures StrEnd(text, j) == StrEnd(text, j + |head|)
  {
    HoldsAt(text, j, head, 0);
  }

  lemma {:induction false} CharScan(text: string, j: nat, us: seq<CharUnit>)
    requires UnitsOk(us, '\'') && Holds(text, j, RenderUnits(us))
    ensures CharEnd(text, j) == CharEnd(text, j + |RenderUnits(us)|)
    decreases |us|
  {
    if us != [] {
      UnitsSplit(us);
      var head := if us[0].Lit? then [us[0].c] else ['\\', us[0].c];
      HoldsParts(text, j, head, RenderUnits(us[1..]));
      CharUnitScan(text, j, us[0], head);
      CharScan(text, j + |head|, us[1..]);
    }
  }

  lemma CharUnitScan(text: string, j: nat, u: CharUnit, head: string)
    requires head == (if u.Lit? then [u.c] else ['\\', u.c]) && (u.Lit? ==> u.c != '\'' && u.c != '\\') && Holds(text, j, head)
    ensures CharEnd(text, j) == CharEnd(text, j + |head|)
  {
    HoldsAt(text, j, head, 0);
  }

  lemma {:induction false} HashScan(text: string, j: nat, n: nat)
    requires Holds(text, j, Hashes(n))
    ensures HashEnd(text, j) == HashEnd(text, j + n)
    decreases n
  {
    if n > 0 {
      HoldsAt(text, j, Hashes(n), 0);
      assert Hashes(n) == "#" + Hashes(n - 1);
      HoldsParts(text, j, "#", Hashes(n - 1));
      HashScan(text, j + 1, n - 1);
    }
  }

  lemma {:induction false} LineScan(text: string, j: nat, body: string)
    requires '\n' !in body && Holds(text, j, body)
    ensures FindChar(text, '\n', j) == FindChar(text, '\n', j + |body|)
    decreases |body|
  {
    if body != "" {
      HoldsAt(text, j, body, 0);
      assert body == [body[0]] + body[1..];
      HoldsParts(text, j, [body[0]], body[1..]);
      LineScan(text, j + 1, body[1..]);
    }
  }

  /** No closer begins inside the body, not even one that would end in the real closer. */
  lemma NoEarlyClose(text: string, j: nat, body: string, hashes: nat, k: nat)
    requires Holds(text, j, body + "\"") && k < |body| && !ClosesRaw(body, k, hashes)
    ensures !ClosesRaw(text, j + k, hashes)
  {
    HoldsAt(text, j, body + "\"", k);
    if ClosesRaw(text, j + k, hashes) {
      if k + 1 + hashes <= |body| {
        forall h | k < h <= k + hashes
          ensures body[h] == '#'
        {
          HoldsAt(text, j, body + "\"", h);
        }
        assert false;
      } else {
        HoldsAt(text, j, body + "\"", |body|);
        assert false;
      }
    }
  }

  lemma {:induction false} CloseScan(text: string, j: nat, body: string, hashes: nat, k: nat)
    requires Holds(text, j, body + "\"") && k <= |body|
    requires forall i :: 0 <= i < |body| ==> !ClosesRaw(body, i, hashes)
    ensures FindClose(text, hashes, j + k) == FindClose(text, hashes, j + |body|)
    decreases |body| - k
  {
    if k < |body| {
      NoEarlyClose(text, j, body, hashes, k);
      CloseScan(text, j, body, hashes, k + 1);
    }
  }

  // ----- each kind of piece is taken in one step -----

  lemma StepIsBlock(text: string, i: nat)
    requires CharAt(text, i, '/') && CharAt(text, i + 1, '*')
    ensures Step(text, i) == BlockStep(text, i)
  {
  }

  lemma StepIsRaw(text: string, i: nat)
    requires i < |text| && text[i] != '/' && RawPrefixLen(text, i) > 0
    ensures Step(text, i) == RawStep(text, i)
  {
  }

  lemma StepIsQuote(text: string, i: nat)
    requires i < |text| && text[i] != '/' && RawPrefixLen(text, i) == 0 && !OpensString(text, i) && OpensQuote(text, i)
    ensures Step(text, i) == QuoteStep(text, i)
  {
  }

  lemma BlockPiece(text: string, i: nat, inner: Body)
    requires BodyOk(inner) && Holds(text, i, "/*" + RenderBody(inner) + "*/")
    ensures i < |text| && Step(text, i) == ExpectedToken(Block(inner), i)
  {
    var r := RenderBody(inner);
    assert "/*" + r + "*/" == "/*" + (r + "*/");
    HoldsParts(text, i, "/*", r + "*/");
    HoldsAt(text, i, "/*", 0);
    HoldsAt(text, i, "/*", 1);
    StepIsBlock(text, i);
    BlockCommentEnd(text, i + 2, inner);
  }

  lemma BlockCommentEnd(text: string, j: nat, inner: Body)
    requires BodyOk(inner) && Holds(text, j, RenderBody(inner) + "*/")
    ensures BlockEnd(text, j, 1) == j + |RenderBody(inner)| + 2
  {
    var r := RenderBody(inner);
    BlockScan(text, j, inner, 1);
    HoldsParts(text, j, r, "*/");
    HoldsAt(text, j + |r|, "*/", 0);
    HoldsAt(text, j + |r|, "*/", 1);
    BlockCloses(text, j + |r|, 1);
  }

  lemma LinePiece(text: string, i: nat, body: string, after: string)
    requires PieceOk(Line(body), after) && i <= |text| && text[i..] == "//" + body + after
    ensures i < |text| && Step(text, i) == ExpectedToken(Line(body), i)
  {
    SuffixHolds(text, i, "//" + body, after);
    HoldsParts(text, i, "//", body);
    HoldsAt(text, i, "//", 0);
    HoldsAt(text, i, "//", 1);
    assert FindChar(text, '\n', i) == FindChar(text, '\n', i + 1) == FindChar(text, '\n', i + 2);
    LineScan(text, i + 2, body);
    var j := i + 2 + |body|;
    assert text[j..] == after;
    assert j == |text| || text[j] == after[0];
  }

  /** `s` stands at the front of the rest of the text. */
  lemma SuffixHolds(text: string, i: nat, s: string, after: string)
    requires i <= |text| && text[i..] == s + after
    ensures Holds(text, i, s) && i + |s| <= |text| && text[i + |s|..] == after
  {
    assert |text| - i == |s| + |after|;
    assert text[i..][..|s|] == s && text[i..][|s|..] == after;
    assert text[i..i + |s|] == text[i..][..|s|];
    assert text[i + |s|..] == text[i..][|s|..];
  }

  lemma ByteQuote(text: string, i: nat, byte: bool, quote: char, rest: string)
    requires quote == '"' || quote == '\''
    requires Holds(text, i, BytePrefix(byte) + [quote] + rest)
    ensures var q := i + |BytePrefix(byte)|;
            && CharAt(text, q, quote) && (byte ==> CharAt(text, i, 'b')) && Holds(text, q + 1, rest)
            && QuoteAt(text, i) == q
    ensures i < |text| && RawPrefixLen(text, i) == 0 && text[i] != '/'
  {
    var p := BytePrefix(byte);
    assert p + [quote] + rest == p + ([quote] + rest);
    HoldsParts(text, i, p, [quote] + rest);
    HoldsParts(text, i + |p|, [quote], rest);
    HoldsAt(text, i + |p|, [quote], 0);
    if byte { HoldsAt(text, i, p, 0); }
  }

  lemma StepIsString(text: string, i: nat)
    requires i < |text| && text[i] != '/' && RawPrefixLen(text, i) == 0 && OpensString(text, i)
    ensures Step(text, i) == StringStep(text, i)
  {
  }

  /** Where a plain string's scan ends. */
  lemma StrCloses(text: string, j: nat, units: seq<CharUnit>)
    requires UnitsOk(units, '"') && Holds(text, j, RenderUnits(units) + "\"")
    ensures var k := j + |RenderUnits(units)|; StrEnd(text, j) == k < |text|
  {
    var u := RenderUnits(units);
    HoldsParts(text, j, u, "\"");
    StrScan(text, j, units);
    HoldsAt(text, j + |u|, "\"", 0);
  }

  lemma StrPiece(text: string, i: nat, byte: bool, units: seq<CharUnit>)
    requires UnitsOk(units, '"') && Holds(text, i, Render(Str(byte, units)))
    ensures i < |text| && Step(text, i) == ExpectedToken(Str(byte, units), i)
  {
    var u := RenderUnits(units);
    assert Render(Str(byte, units)) == BytePrefix(byte) + ['"'] + (u + "\"");
    ByteQuote(text, i, byte, '"', u + "\"");
    StepIsString(text, i);
    StrCloses(text, i + |BytePrefix(byte)| + 1, units);
  }

  /** What the quote step reads in a rendered char literal. */
  lemma ChrCloses(text: string, j: nat, lit: CharBody)
    requires CharOk(lit) && Holds(text, j, RenderChar(lit) + "'")
    ensures var k := j + |RenderChar(lit)|;
            k < |text| && if lit.One? then !CharAt(text, j, '\\') && k == j + 1 && CharAt(text, k, '\'')
                          else CharAt(text, j, '\\') && CharEnd(text, j + 2) == k
  {
    var u := RenderChar(lit);
    HoldsParts(text, j, u, "'");
    HoldsAt(text, j + |u|, "'", 0);
    if lit.One? {
      HoldsAt(text, j, u, 0);
    } else {
      EscapedEnd(text, j, lit.first, lit.rest);
    }
  }

  lemma ChrPiece(text: string, i: nat, byte: bool, lit: CharBody)
    requires CharOk(lit) && Holds(text, i, Render(Chr(byte, lit)))
    ensures i < |text| && Step(text, i) == ExpectedToken(Chr(byte, lit), i)
  {
    var u := RenderChar(lit);
    assert Render(Chr(byte, lit)) == BytePrefix(byte) + ['\''] + (u + "'");
    ByteQuote(text, i, byte, '\'', u + "'");
    StepIsQuote(text, i);
    ChrCloses(text, i + |BytePrefix(byte)| + 1, lit);
  }

  lemma EscapedEnd(text: string, j: nat, first: char, rest: seq<CharUnit>)
    requires UnitsOk(rest, '\'')
    requires Holds(text, j, ['\\', first] + RenderUnits(rest)) && CharAt(text, j + 2 + |RenderUnits(rest)|, '\'')
    ensures CharAt(text, j, '\\') && CharEnd(text, j + 2) == j + 2 + |RenderUnits(rest)|
  {
    HoldsParts(text, j, ['\\', first], RenderUnits(rest));
    HoldsAt(text, j, ['\\', first], 0);
    CharScan(text, j + 2, rest);
  }

  lemma RawMarks(text: string, j: nat, hashes: nat, rest: string)
    requires Holds(text, j, "r" + (Hashes(hashes) + ("\"" + rest)))
    ensures CharAt(text, j, 'r') && HashEnd(text, j + 1) == j + 1 + hashes && CharAt(text, j + 1 + hashes, '"')
    ensures Holds(text, j + 2 + hashes, rest)
  {
    var h := Hashes(hashes);
    HoldsParts(text, j, "r", h + ("\"" + rest));
    HoldsParts(text, j + 1, h, "\"" + rest);
    HoldsParts(text, j + 1 + hashes, "\"", rest);
    HoldsAt(text, j, "r", 0);
    HoldsAt(text, j + 1 + hashes, "\"", 0);
    HashScan(text, j + 1, hashes);
  }

  lemma RawRendered(byte: bool, hashes: nat, body: string)
    ensures Render(Raw(byte, hashes, body))
         == BytePrefix(byte) + ("r" + (Hashes(hashes) + ("\"" + ((body + "\"") + Hashes(hashes)))))
    ensures |Render(Raw(byte, hashes, body))| == |BytePrefix(byte)| + 2 + hashes + |body| + 1 + hashes
  {
  }

  lemma RawPrefixFrom(text: string, i: nat, byte: bool, hashes: nat)
    requires byte ==> CharAt(text, i, 'b')
    requires var j := i + |BytePrefix(byte)|;
             CharAt(text, j, 'r') && HashEnd(text, j + 1) == j + 1 + hashes && CharAt(text, j + 1 + hashes, '"')
    ensures i < |text| && text[i] != '/' && (text[i] == 'b' <==> byte)
    ensures RawPrefixLen(text, i) == |BytePrefix(byte)| + 2 + hashes
  {
  }

  lemma RawOpener(text: string, i: nat, byte: bool, hashes: nat, rest: string)
    requires Holds(text, i, BytePrefix(byte) + ("r" + (Hashes(hashes) + ("\"" + rest))))
    ensures i < |text| && text[i] != '/' && (text[i] == 'b' <==> byte)
    ensures RawPrefixLen(text, i) == |BytePrefix(byte)| + 2 + hashes
    ensures Holds(text, i + |BytePrefix(byte)| + 2 + hashes, rest)
  {
    var p := BytePrefix(byte);
    HoldsParts(text, i, p, "r" + (Hashes(hashes) + ("\"" + rest)));
    RawMarks(text, i + |p|, hashes, rest);
    if byte { HoldsAt(text, i, p, 0); }
    RawPrefixFrom(text, i, byte, hashes);
  }

  lemma RawToken(text: string, i: nat, byte: bool, hashes: nat, body: string)
    requires i < |text| && (text[i] == 'b' <==> byte) && RawPrefixLen(text, i) == |BytePrefix(byte)| + 2 + hashes
    requires var j := i + |BytePrefix(byte)| + 2 + hashes; j <= |text| && FindClose(text, hashes, j) == j + |body| < |text|
    ensures RawStep(text, i) == ExpectedToken(Raw(byte, hashes, body), i)
  {
    var j := i + |BytePrefix(byte)| + 2 + hashes;
    RawStepIs(text, i, hashes, j, j + |body|);
    RawExpected(byte, hashes, body, i);
  }

  lemma RawStepIs(text: string, i: nat, hashes: nat, j: nat, k: nat)
    requires i < |text| && RawPrefixLen(text, i) > 0 && RawHashes(text, i) == hashes && i + RawPrefixLen(text, i) == j <= |text|
    requires FindClose(text, hashes, j) == k < |text|
    ensures RawStep(text, i) == Token(RawString, i, k + 1 + hashes, j, k)
  {
  }

  lemma RawExpected(byte: bool, hashes: nat, body: string, i: nat)
    ensures var j := i + |BytePrefix(byte)| + 2 + hashes;
            ExpectedToken(Raw(byte, hashes, body), i) == Token(RawString, i, j + |body| + 1 + hashes, j, j + |body|)
  {
    RawRendered(byte, hashes, body);
  }

  lemma RawPiece(text: string, i: nat, byte: bool, hashes: nat, body: string)
    requires forall k :: 0 <= k < |body| ==> !ClosesRaw(body, k, hashes)
    requires Holds(text, i, Render(Raw(byte, hashes, body)))
    ensures i < |text| && Step(text, i) == ExpectedToken(Raw(byte, hashes, body), i)
  {
    RawRendered(byte, hashes, body);
    RawOpener(text, i, byte, hashes, (body + "\"") + Hashes(hashes));
    StepIsRaw(text, i);
    RawBodyEnd(text, i + |BytePrefix(byte)| + 2 + hashes, body, hashes);
    RawToken(text, i, byte, hashes, body);
  }

  lemma RawBodyEnd(text: string, j: nat, body: string, hashes: nat)
    requires forall k :: 0 <= k < |body| ==> !ClosesRaw(body, k, hashes)
    requires Holds(text, j, (body + "\"") + Hashes(hashes))
    ensures FindClose(text, hashes, j) == j + |body| < |text|
  {
    HoldsParts(text, j, body + "\"", Hashes(hashes));
    CloseScan(text, j, body, hashes, 0);
    RawCloser(text, j, body, hashes);
  }

  lemma RawCloser(text: string, j: nat, body: string, hashes: nat)
    requires Holds(text, j, body + "\"") && Holds(text, j + |body| + 1, Hashes(hashes))
    ensures ClosesRaw(text, j + |body|, hashes)
  {
    HoldsAt(text, j, body + "\"", |body|);
    var k := j + |body|;
    forall h | k < h <= k + hashes
      ensures text[h] == '#'
    {
      HoldsAt(text, k + 1, Hashes(hashes), h - k - 1);
    }
  }

  lemma PlainPiece(text: string, i: nat, c: char, after: string)
    requires PlainOk(c, after) && i <= |text| && text[i..] == [c] + after
    ensures i < |text| && Step(text, i) == CodeStep(i)
  {
    SuffixHolds(text, i, [c], after);
    HoldsAt(text, i, [c], 0);
    SuffixChar(text, i + 1, after, 0);
    SuffixChar(text, i + 1, after, 1);
    PlainNotRaw(text, i, c, after);
  }

  lemma SuffixChar(text: string, i: nat, after: string, k: nat)
    requires i <= |text| && text[i..] == after
    ensures forall x :: CharAt(text, i + k, x) <==> CharAt(after, k, x)
  {
    if k < |after| { assert text[i..][k] == text[i + k]; }
  }

  lemma {:induction false} HashEndSuffix(text: string, i: nat, after: string, k: nat)
    requires i <= |text| && text[i..] == after && k <= |after|
    ensures HashEnd(text, i + k) == i + HashEnd(after, k)
    decreases |after| - k
  {
    SuffixChar(text, i, after, k);
    if k < |after| {
      HashEndSuffix(text, i, after, k + 1);
    }
  }

  lemma PlainNotRaw(text: string, i: nat, c: char, after: string)
    requires PlainOk(c, after) && i < |text| && text[i] == c && text[i + 1..] == after
    ensures RawPrefixLen(text, i) == 0
  {
    if c == 'r' {
      HashEndSuffix(text, i + 1, after, 0);
      SuffixChar(text, i + 1, after, HashEnd(after, 0));
    } else if c == 'b' && CharAt(text, i + 1, 'r') {
      SuffixChar(text, i + 1, after, 0);
      var rest := after[1..];
      assert text[i + 2..] == rest;
      HashEndSuffix(text, i + 2, rest, 0);
      SuffixChar(text, i + 2, rest, HashEnd(rest, 0));
    }
  }

  lemma PieceStep(text: string, i: nat, p: Piece, after: string)
    requires PieceOk(p, after) && i <= |text| && text[i..] == Render(p) + after
    ensures i < |text| && Step(text, i) == ExpectedToken(p, i)
    ensures i + |Render(p)| <= |text| && text[i + |Render(p)|..] == after
  {
    SuffixHolds(text, i, Render(p), after);
    match p
    case Plain(c) => PlainPiece(text, i, c, after);
    case Line(body) => LinePiece(text, i, body, after);
    case Block(inner) => BlockPiece(text, i, inner);
    case Raw(byte, hashes, body) => RawPiece(text, i, byte, hashes, body);
    case Str(byte, units) => StrPiece(text, i, byte, units);
    case Chr(byte, lit) => ChrPiece(text, i, byte, lit);
  }

  lemma {:induction false} WalkRendered(text: string, i: nat, ps: seq<Piece>)
    requires WellSeparated(ps) && i <= |text| && text[i..] == RenderAll(ps)
    ensures Walk(text, i) == Expected(ps, i)
    decreases |ps|
  {
    if ps != [] {
      var p, after := ps[0], RenderAll(ps[1..]);
      PieceStep(text, i, p, after);
      WalkStep(text, i, ExpectedToken(p, i));
      WalkRendered(text, i + |Render(p)|, ps[1..]);
    }
  }

  lemma WalkStep(text: string, i: nat, t: Token)
    requires i < |text| && Step(text, i) == t
    ensures t.stop <= |text| && Walk(text, i) == [t] + Walk(text, t.stop)
  {
    StepShape(text, i);
  }

  /** Round trip: the walk over a rendered well-separated list yields exactly that list's tokens, hence
      exactly its string bodies and comments. */
  lemma RoundTrip(ps: seq<Piece>)
    requires WellSeparated(ps)
    ensures Tokens(RenderAll(ps)) == Expected(ps, 0)
    ensures StringSpans(Tokens(RenderAll(ps))) == StringSpans(Expected(ps, 0))
    ensures CommentSpans(Tokens(RenderAll(ps))) == CommentSpans(Expected(ps, 0))
  {
    assert RenderAll(ps)[0..] == RenderAll(ps);
    WalkRendered(RenderAll(ps), 0, ps);
  }
}

/** What verifying any text answers, in every case. */
module TokenVerdicts {

  import opened Options
  import opened Base64Url
  import opened Fields
  import opened Token

  /** The token is two canonical encodings with a dot between them. */
  ghost predicate Made(token: string, json: seq<Byte>, tag: seq<Byte>)
  {
    token == Encode(json) + "." + Encode(tag)
  }

  /** The bytes are a JSON object of the claims type that carries `c`. */
  ghost predicate Holds(p: Primitives, shape: Shape, json: seq<Byte>, c: Claims)
  {
    p.parse(json).Some? && ShapeOf(c) == shape && Carries(p.parse(json).value, c)
  }

  lemma {:induction false} PartCount(s: string, sep: char)
    ensures |SplitOn(s, sep)| == multiset(s)[sep] + 1
  {
    if s != "" {
      PartCount(s[1..], sep);
      assert s == [s[0]] + s[1..];
    }
  }

  lemma MadeParts(token: string, json: seq<Byte>, tag: seq<Byte>)
    requires Made(token, json, tag)
    ensures SplitOn(token, '.') == [Encode(json), Encode(tag)]
    ensures Decode(Encode(json)) == Some(json) && Decode(Encode(tag)) == Some(tag)
  {
    DecodeEncode(json);
    DecodeEncode(tag);
    SplitPair(Encode(json), '.', Encode(tag));
  }

  lemma DecodedIsMade(token: string)
    requires var parts := SplitOn(token, '.'); |parts| == 2 && Decode(parts[0]).Some? && Decode(parts[1]).Some?
    ensures var parts := SplitOn(token, '.'); Made(token, Decode(parts[0]).value, Decode(parts[1]).value)
  {
    var parts := SplitOn(token, '.');
    JoinSplit(token, '.');
    assert JoinOn(parts, '.') == parts[0] + "." + JoinOn(parts[1..], '.');
    EncodeDecode(parts[0]);
    EncodeDecode(parts[1]);
  }

  /** The envelope: the number of dots decides first, then whether both parts are canonical encodings, then the tag;
      only a token with the right tag has its claims read. */
  lemma EnvelopeVerdict(p: Primitives, key: seq<Byte>, shape: Shape, token: string, clock: Option<U64>)
    ensures multiset(token)['.'] != 1 ==> Verify(p, key, shape, token, clock) == Err(Format(multiset(token)['.'] + 1))
    ensures multiset(token)['.'] == 1 && (forall json, tag :: !Made(token, json, tag)) ==> Verify(p, key, shape, token, clock) == Err(Base64)
    ensures forall json, tag :: Made(token, json, tag) ==>
      Verify(p, key, shape, token, clock) == if tag == p.mac(key, json) then Admit(p, shape, json, clock) else Err(InvalidSignature)
  {
    PartCount(token, '.');
    var parts := SplitOn(token, '.');
    if |parts| == 2 && Decode(parts[0]).Some? && Decode(parts[1]).Some? {
      DecodedIsMade(token);
    }
    forall json, tag | Made(token, json, tag)
      ensures Verify(p, key, shape, token, clock) == if tag == p.mac(key, json) then Admit(p, shape, json, clock) else Err(InvalidSignature)
    {
      MadeVerdict(p, key, shape, token, clock, json, tag);
    }
  }

  lemma MadeVerdict(p: Primitives, key: seq<Byte>, shape: Shape, token: string, clock: Option<U64>, json: seq<Byte>, tag: seq<Byte>)
    requires Made(token, json, tag)
    ensures Verify(p, key, shape, token, clock) == if tag == p.mac(key, json) then Admit(p, shape, json, clock) else Err(InvalidSignature)
  {
    MadeParts(token, json, tag);
  }

  /** The claims: bytes that hold no claims of the type, a failed clock and a passed deadline are told apart in that
      order, and otherwise the claims held are the answer. */
  lemma ClaimsVerdict(p: Primitives, shape: Shape, json: seq<Byte>, clock: Option<U64>)
    ensures Admit(p, shape, json, clock) == Err(BadJson) <==> forall c :: !Holds(p, shape, json, c)
    ensures Admit(p, shape, json, clock) == Err(Clock) <==> clock.None? && exists c :: Holds(p, shape, json, c)
    ensures forall c :: Admit(p, shape, json, clock) == Ok(c) <==> Holds(p, shape, json, c) && clock.Some? && clock.value <= c.expiry
    ensures forall c :: Holds(p, shape, json, c) && clock.Some? && c.expiry < clock.value ==>
      Admit(p, shape, json, clock) == Err(Expired(c.expiry, clock.value))
  {
    forall c
      ensures Holds(p, shape, json, c) <==> p.parse(json).Some? && FromWire(shape, p.parse(json).value) == Some(c)
    {
      if p.parse(json).Some? { WireReads(p.parse(json).value, shape, c); }
    }
    if p.parse(json).Some? && FromWire(shape, p.parse(json).value).Some? {
      assert Holds(p, shape, json, FromWire(shape, p.parse(json).value).value);
    }
  }
}

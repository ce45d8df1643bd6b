/** The HMAC token family: three claims types sharing one signer and one verifier. SHA-256, the JSON
    text codec and the clock are parameters; the field-level shape of each claims type is modelled. */
module Token {

  import opened Options
  import opened Base64Url
  import opened Fields

  const U64_MAX := 0xFFFF_FFFF_FFFF_FFFF
  const MAX_HMAC_LIFETIME_SECS := 7 * 86400

  type U64 = x: nat | x <= U64_MAX
  type I32 = x: int | -0x8000_0000 <= x < 0x8000_0000

  // ----- claims -----

  datatype Claims =
    | Assignment(executorId: string, drvHash: string, expectedOutputs: seq<string>, isCa: bool,
                 expiry: U64, tenant: Option<string>, inputClosureDigest: string)
    | Service(caller: string, expiry: U64, instance: Option<string>)
    | Executor(intentId: string, kind: I32, expiry: U64)

  /** The type argument of `verify`. */
  datatype Shape = AssignmentShape | ServiceShape | ExecutorShape

  function ShapeOf(c: Claims): Shape
  {
    match c
    case Assignment(_, _, _, _, _, _, _) => AssignmentShape
    case Service(_, _, _) => ServiceShape
    case Executor(_, _, _) => ExecutorShape
  }

  datatype Json = JNull | JBool(b: bool) | JNum(n: int) | JStr(s: string) | JList(items: seq<Json>)

  /** A decoded JSON object. */
  type Wire = map<string, Json>

  function StrOpt(key: string, v: Option<string>): Wire
  {
    if v.None? then map[] else map[key := JStr(v.value)]
  }

  function Strings(xs: seq<string>): (r: seq<Json>)
    ensures |r| == |xs|
  {
    seq(|xs|, i requires 0 <= i < |xs| => JStr(xs[i]))
  }

  /** Serialization: optional fields are written only when set; executor claims carry a spawn nonce. */
  function ToWire(c: Claims, nonce: string): Wire
  {
    match c
    case Assignment(executor, drv, outputs, ca, expiry, tenant, digest) =>
      map["executor_id" := JStr(executor), "drv_hash" := JStr(drv),
          "expected_outputs" := JList(Strings(outputs)), "is_ca" := JBool(ca), "expiry_unix" := JNum(expiry)]
      + StrOpt("tenant", tenant)
      + (if digest == "" then map[] else map["input_closure_digest" := JStr(digest)])
    case Service(caller, expiry, instance) =>
      map["caller" := JStr(caller), "expiry_unix" := JNum(expiry)] + StrOpt("instance", instance)
    case Executor(intent, kind, expiry) =>
      map["intent_id" := JStr(intent), "kind" := JNum(kind), "expiry_unix" := JNum(expiry), "spawn" := JStr(nonce)]
  }

  /** The field `key: v` is written. */
  ghost predicate Writes(c: Claims, nonce: string, key: string, v: Json)
  {
    match c
    case Assignment(executor, drv, outputs, ca, expiry, tenant, digest) =>
      || (key == "executor_id" && v == JStr(executor))
      || (key == "drv_hash" && v == JStr(drv))
      || (key == "expected_outputs" && v.JList? && |v.items| == |outputs| && forall i :: 0 <= i < |outputs| ==> v.items[i] == JStr(outputs[i]))
      || (key == "is_ca" && v == JBool(ca))
      || (key == "expiry_unix" && v == JNum(expiry))
      || (key == "tenant" && tenant.Some? && v == JStr(tenant.value))
      || (key == "input_closure_digest" && digest != "" && v == JStr(digest))
    case Service(caller, expiry, instance) =>
      || (key == "caller" && v == JStr(caller))
      || (key == "expiry_unix" && v == JNum(expiry))
      || (key == "instance" && instance.Some? && v == JStr(instance.value))
    case Executor(intent, kind, expiry) =>
      || (key == "intent_id" && v == JStr(intent))
      || (key == "kind" && v == JNum(kind))
      || (key == "expiry_unix" && v == JNum(expiry))
      || (key == "spawn" && v == JStr(nonce))
  }

  /** The object holds the fields of its claims type under their names, and nothing else. */
  lemma WireFields(c: Claims, nonce: string, key: string, v: Json)
    ensures key in ToWire(c, nonce) && ToWire(c, nonce)[key] == v <==> Writes(c, nonce, key, v)
  {
    match c
    case Assignment(_, _, _, _, _, _, _) => AssignmentFields(c, nonce, key, v);
    case Service(_, _, _) =>
    case Executor(_, _, _) =>
  }

  lemma AssignmentFields(c: Claims, nonce: string, key: string, v: Json)
    requires c.Assignment?
    ensures key in ToWire(c, nonce) && ToWire(c, nonce)[key] == v <==> Writes(c, nonce, key, v)
  {
    if key == "expected_outputs" {
      if v.JList? && |v.items| == |c.expectedOutputs| && forall i :: 0 <= i < |c.expectedOutputs| ==> v.items[i] == JStr(c.expectedOutputs[i]) {
        assert v.items == Strings(c.expectedOutputs);
      }
    }
  }

  // ----- deserialization: required fields, defaults, no unknown fields -----

  predicate HasStr(w: Wire, key: string) { key in w && w[key].JStr? }
  predicate HasU64(w: Wire, key: string) { key in w && w[key].JNum? && 0 <= w[key].n <= U64_MAX }
  predicate HasI32(w: Wire, key: string) { key in w && w[key].JNum? && -0x8000_0000 <= w[key].n < 0x8000_0000 }
  predicate HasBool(w: Wire, key: string) { key in w && w[key].JBool? }
  predicate AllStr(xs: seq<Json>) { forall i :: 0 <= i < |xs| ==> xs[i].JStr? }
  predicate HasStrings(w: Wire, key: string) { key in w && w[key].JList? && AllStr(w[key].items) }
  predicate OptStr(w: Wire, key: string) { key in w ==> w[key].JStr? || w[key].JNull? }
  predicate Only(w: Wire, keys: set<string>) { w.Keys <= keys }

  function GetOpt(w: Wire, key: string): Option<string>
  {
    if key in w && w[key].JStr? then Some(w[key].s) else None
  }

  function GetStrings(xs: seq<Json>): (r: seq<string>)
    requires AllStr(xs)
    ensures |r| == |xs|
  {
    seq(|xs|, i requires 0 <= i < |xs| => xs[i].s)
  }

  function AssignmentFrom(w: Wire): Option<Claims>
  {
    if HasStr(w, "executor_id") && HasStr(w, "drv_hash") && HasStrings(w, "expected_outputs") && HasBool(w, "is_ca")
       && HasU64(w, "expiry_unix") && OptStr(w, "tenant")
       && ("input_closure_digest" in w ==> w["input_closure_digest"].JStr?)
       && Only(w, {"executor_id", "drv_hash", "expected_outputs", "is_ca", "expiry_unix", "tenant", "input_closure_digest"})
    then
      Some(Assignment(w["executor_id"].s, w["drv_hash"].s, GetStrings(w["expected_outputs"].items), w["is_ca"].b,
                      w["expiry_unix"].n, GetOpt(w, "tenant"),
                      if "input_closure_digest" in w then w["input_closure_digest"].s else ""))
    else None
  }

  function ServiceFrom(w: Wire): Option<Claims>
  {
    if HasStr(w, "caller") && HasU64(w, "expiry_unix") && OptStr(w, "instance")
       && Only(w, {"caller", "expiry_unix", "instance"})
    then Some(Service(w["caller"].s, w["expiry_unix"].n, GetOpt(w, "instance")))
    else None
  }

  function ExecutorFrom(w: Wire): Option<Claims>
  {
    if HasStr(w, "intent_id") && HasI32(w, "kind") && HasU64(w, "expiry_unix") && HasStr(w, "spawn")
       && Only(w, {"intent_id", "kind", "expiry_unix", "spawn"})
    then Some(Executor(w["intent_id"].s, w["kind"].n, w["expiry_unix"].n))
    else None
  }

  function FromWire(shape: Shape, w: Wire): Option<Claims>
  {
    match shape
    case AssignmentShape => AssignmentFrom(w)
    case ServiceShape => ServiceFrom(w)
    case ExecutorShape => ExecutorFrom(w)
  }

  /** An optional field is absent, null, or holds its text. */
  ghost predicate Optionally(w: Wire, key: string, v: Option<string>)
  {
    if v.Some? then key in w && w[key] == JStr(v.value) else key in w ==> w[key] == JNull
  }

  ghost predicate Field(w: Wire, key: string, v: Json)
  {
    key in w && w[key] == v
  }

  ghost predicate TextList(w: Wire, key: string, xs: seq<string>)
  {
    key in w && w[key].JList? && |w[key].items| == |xs| && forall i :: 0 <= i < |xs| ==> w[key].items[i] == JStr(xs[i])
  }

  /** `w` is an object of `c`: every field of the claims type with its value, and no field it does not have. */
  ghost predicate Carries(w: Wire, c: Claims)
  {
    match c
    case Assignment(executor, drv, outputs, ca, expiry, tenant, digest) =>
      && Field(w, "executor_id", JStr(executor)) && Field(w, "drv_hash", JStr(drv)) && TextList(w, "expected_outputs", outputs)
      && Field(w, "is_ca", JBool(ca)) && Field(w, "expiry_unix", JNum(expiry)) && Optionally(w, "tenant", tenant)
      && (Field(w, "input_closure_digest", JStr(digest)) || (digest == "" && "input_closure_digest" !in w))
      && forall key :: key in w ==>
           key in ["executor_id", "drv_hash", "expected_outputs", "is_ca", "expiry_unix", "tenant", "input_closure_digest"]
    case Service(caller, expiry, instance) =>
      && Field(w, "caller", JStr(caller)) && Field(w, "expiry_unix", JNum(expiry)) && Optionally(w, "instance", instance)
      && forall key :: key in w ==> key in ["caller", "expiry_unix", "instance"]
    case Executor(intent, kind, expiry) =>
      && Field(w, "intent_id", JStr(intent)) && Field(w, "kind", JNum(kind)) && Field(w, "expiry_unix", JNum(expiry))
      && "spawn" in w && w["spawn"].JStr?
      && forall key :: key in w ==> key in ["intent_id", "kind", "expiry_unix", "spawn"]
  }

  /** What the decoder reads as which claims: an unknown field, a missing one or one of another type is refused. */
  lemma WireReads(w: Wire, shape: Shape, c: Claims)
    ensures FromWire(shape, w) == Some(c) <==> shape == ShapeOf(c) && Carries(w, c)
  {
    match shape
    case AssignmentShape => AssignmentReads(w, c);
    case ServiceShape => ServiceReads(w, c);
    case ExecutorShape => ExecutorReads(w, c);
  }

  lemma AssignmentReads(w: Wire, c: Claims)
    ensures AssignmentFrom(w) == Some(c) <==> c.Assignment? && Carries(w, c)
  {
    if AssignmentFrom(w).Some? {
      TextsRead(w, "expected_outputs");
    }
    if c.Assignment? && Carries(w, c) {
      TextsAre(w, "expected_outputs", c.expectedOutputs);
      KeysAre(w, ["executor_id", "drv_hash", "expected_outputs", "is_ca", "expiry_unix", "tenant", "input_closure_digest"],
              {"executor_id", "drv_hash", "expected_outputs", "is_ca", "expiry_unix", "tenant", "input_closure_digest"});
    }
  }

  lemma TextsRead(w: Wire, key: string)
    requires HasStrings(w, key)
    ensures TextList(w, key, GetStrings(w[key].items))
  {
  }

  lemma TextsAre(w: Wire, key: string, xs: seq<string>)
    requires TextList(w, key, xs)
    ensures HasStrings(w, key) && GetStrings(w[key].items) == xs
  {
  }

  lemma KeysAre(w: Wire, keys: seq<string>, all: set<string>)
    requires (forall key :: key in w ==> key in keys) && forall key :: key in keys ==> key in all
    ensures Only(w, all)
  {
  }

  lemma ServiceReads(w: Wire, c: Claims)
    ensures ServiceFrom(w) == Some(c) <==> c.Service? && Carries(w, c)
  {
  }

  lemma ExecutorReads(w: Wire, c: Claims)
    ensures ExecutorFrom(w) == Some(c) <==> c.Executor? && Carries(w, c)
  {
  }

  lemma StringsRoundTrip(xs: seq<string>)
    ensures AllStr(Strings(xs)) && GetStrings(Strings(xs)) == xs
  {
  }

  lemma AssignmentWire(c: Claims, nonce: string)
    requires c.Assignment?
    ensures var w := ToWire(c, nonce); AssignmentFrom(w) == Some(c) && ServiceFrom(w).None? && ExecutorFrom(w).None?
  {
    AssignmentRead(c, nonce);
    assert var w := ToWire(c, nonce); "caller" !in w && "intent_id" !in w;
  }

  lemma AssignmentRead(c: Claims, nonce: string)
    requires c.Assignment?
    ensures AssignmentFrom(ToWire(c, nonce)) == Some(c)
  {
    StringsRoundTrip(c.expectedOutputs);
  }

  lemma ServiceWire(c: Claims, nonce: string)
    requires c.Service?
    ensures var w := ToWire(c, nonce); ServiceFrom(w) == Some(c) && AssignmentFrom(w).None? && ExecutorFrom(w).None?
  {
    var w := ToWire(c, nonce);
    assert "drv_hash" !in w && "intent_id" !in w;
  }

  lemma ExecutorWire(c: Claims, nonce: string)
    requires c.Executor?
    ensures var w := ToWire(c, nonce); ExecutorFrom(w) == Some(c) && AssignmentFrom(w).None? && ServiceFrom(w).None?
  {
    var w := ToWire(c, nonce);
    assert "drv_hash" !in w && "caller" !in w;
  }

  /** A wire object decodes as the type that wrote it, to the value that was written, and as no other
      type: the shapes alone keep the three token types apart. */
  lemma WireIsolation(c: Claims, nonce: string, shape: Shape)
    ensures FromWire(shape, ToWire(c, nonce)) == if shape == ShapeOf(c) then Some(c) else None
  {
    match c
    case Assignment(_, _, _, _, _, _, _) => AssignmentWire(c, nonce);
    case Service(_, _, _) => ServiceWire(c, nonce);
    case Executor(_, _, _) => ExecutorWire(c, nonce);
  }

  // ----- decoders that predate the optional fields -----

  function OlderAssignmentFrom(w: Wire): Option<Claims>
  {
    if HasStr(w, "executor_id") && HasStr(w, "drv_hash") && HasStrings(w, "expected_outputs") && HasBool(w, "is_ca")
       && HasU64(w, "expiry_unix") && Only(w, {"executor_id", "drv_hash", "expected_outputs", "is_ca", "expiry_unix"})
    then
      Some(Assignment(w["executor_id"].s, w["drv_hash"].s, GetStrings(w["expected_outputs"].items), w["is_ca"].b,
                      w["expiry_unix"].n, None, ""))
    else None
  }

  function OlderServiceFrom(w: Wire): Option<Claims>
  {
    if HasStr(w, "caller") && HasU64(w, "expiry_unix") && Only(w, {"caller", "expiry_unix"})
    then Some(Service(w["caller"].s, w["expiry_unix"].n, None))
    else None
  }

  function OlderFromWire(shape: Shape, w: Wire): Option<Claims>
  {
    match shape
    case AssignmentShape => OlderAssignmentFrom(w)
    case ServiceShape => OlderServiceFrom(w)
    case ExecutorShape => ExecutorFrom(w)
  }

  predicate AllDefaults(c: Claims)
  {
    match c
    case Assignment(_, _, _, _, _, tenant, digest) => tenant.None? && digest == ""
    case Service(_, _, instance) => instance.None?
    case Executor(_, _, _) => true
  }

  lemma OlderAssignment(c: Claims, nonce: string)
    requires c.Assignment?
    ensures OlderAssignmentFrom(ToWire(c, nonce)) == if AllDefaults(c) then Some(c) else None
  {
    var w := ToWire(c, nonce);
    StringsRoundTrip(c.expectedOutputs);
    assert "tenant" in w <==> c.tenant.Some?;
    assert "input_closure_digest" in w <==> c.inputClosureDigest != "";
  }

  lemma OlderService(c: Claims, nonce: string)
    requires c.Service?
    ensures OlderServiceFrom(ToWire(c, nonce)) == if AllDefaults(c) then Some(c) else None
  {
    var w := ToWire(c, nonce);
    assert "instance" in w <==> c.instance.Some?;
  }

  /** Forward skew: a decoder that predates the optional fields, and rejects unknown ones, accepts what is written
      today exactly when every optional field has its default, and then reads the same claims.  Executor claims have
      no optional fields. */
  lemma ForwardSkew(c: Claims, nonce: string)
    ensures OlderFromWire(ShapeOf(c), ToWire(c, nonce)) == if AllDefaults(c) then Some(c) else None
  {
    match c
    case Assignment(_, _, _, _, _, _, _) => OlderAssignment(c, nonce);
    case Service(_, _, _) => OlderService(c, nonce);
    case Executor(_, _, _) => ExecutorWire(c, nonce);
  }

  // ----- sign and verify -----

  /** SHA-256 keyed by HMAC, and the JSON text codec. */
  datatype Primitives = Primitives(mac: (seq<Byte>, seq<Byte>) -> seq<Byte>,
                                   render: Wire -> seq<Byte>,
                                   parse: seq<Byte> -> Option<Wire>)

  ghost predicate Lawful(p: Primitives)
  {
    forall w :: p.parse(p.render(w)) == Some(w)
  }

  datatype Error = Format(parts: nat) | Base64 | InvalidSignature | BadJson | Clock | Expired(expiry: U64, now: U64)
  datatype Result<T> = Ok(value: T) | Err(error: Error)

  function SaturatingAdd(a: U64, b: U64): U64
  {
    if a + b <= U64_MAX then a + b else U64_MAX
  }

  /** The instant past which a token signed under `clock` is refused. A failed signer clock reads as 0. */
  function Deadline(requested: U64, clock: Option<U64>): U64
  {
    var now := if clock.Some? then clock.value else 0;
    var cap := SaturatingAdd(now, MAX_HMAC_LIFETIME_SECS);
    if requested > cap then cap else requested
  }

  /** The claims as signed. */
  function Clamped(c: Claims, clock: Option<U64>): Claims
  {
    c.(expiry := Deadline(c.expiry, clock))
  }

  function Envelope(p: Primitives, key: seq<Byte>, json: seq<Byte>): string
  {
    Encode(json) + "." + Encode(p.mac(key, json))
  }

  function Sign(p: Primitives, key: seq<Byte>, c: Claims, clock: Option<U64>, nonce: string): string
  {
    Envelope(p, key, p.render(ToWire(Clamped(c, clock), nonce)))
  }

  function Verify(p: Primitives, key: seq<Byte>, shape: Shape, token: string, clock: Option<U64>): Result<Claims>
  {
    var parts := SplitOn(token, '.');
    if |parts| != 2 then Err(Format(|parts|))
    else
      var json, tag := Decode(parts[0]), Decode(parts[1]);
      if json.None? || tag.None? then Err(Base64)
      else if p.mac(key, json.value) != tag.value then Err(InvalidSignature)
      else Admit(p, shape, json.value, clock)
  }

  function Admit(p: Primitives, shape: Shape, json: seq<Byte>, clock: Option<U64>): Result<Claims>
  {
    var wire := p.parse(json);
    var claims := if wire.None? then None else FromWire(shape, wire.value);
    if claims.None? then Err(BadJson)
    else if clock.None? then Err(Clock)
    else if clock.value > claims.value.expiry then Err(Expired(claims.value.expiry, clock.value))
    else Ok(claims.value)
  }

  // ----- the laws -----

  lemma VerifyEnvelope(p: Primitives, key: seq<Byte>, other: seq<Byte>, json: seq<Byte>, shape: Shape, clock: Option<U64>)
    ensures Verify(p, other, shape, Envelope(p, key, json), clock)
         == if p.mac(other, json) == p.mac(key, json) then Admit(p, shape, json, clock) else Err(InvalidSignature)
  {
    DecodeEncode(json);
    DecodeEncode(p.mac(key, json));
    SplitPair(Encode(json), '.', Encode(p.mac(key, json)));
  }

  /** What verifying a signed token answers, in every case: another key is an invalid signature unless
      its tags collide, another claims type is a shape error, a failed verifier clock never accepts,
      and otherwise the token is good up to its deadline, which the signer caps at seven days out. */
  lemma SignedTokenVerdict(p: Primitives, key: seq<Byte>, other: seq<Byte>, c: Claims, shape: Shape,
                           signed: Option<U64>, read: Option<U64>, nonce: string)
    requires Lawful(p)
    ensures var kept := Clamped(c, signed);
            var json := p.render(ToWire(kept, nonce));
            Verify(p, other, shape, Sign(p, key, c, signed, nonce), read) ==
            if p.mac(other, json) != p.mac(key, json) then Err(InvalidSignature)
            else if shape != ShapeOf(c) then Err(BadJson)
            else if read.None? then Err(Clock)
            else if read.value > kept.expiry then Err(Expired(kept.expiry, read.value))
            else Ok(kept)
  {
    var kept := Clamped(c, signed);
    var json := p.render(ToWire(kept, nonce));
    VerifyEnvelope(p, key, other, json, shape, read);
    WireIsolation(kept, nonce, shape);
    assert ShapeOf(kept) == ShapeOf(c);
  }

  /** The lifetime law: however late an expiry is requested, a signed token is accepted at `read` exactly
      when `read` is within both the request and seven days of the signer's clock. */
  lemma LifetimeLaw(p: Primitives, key: seq<Byte>, c: Claims, signed: Option<U64>, read: U64, nonce: string)
    requires Lawful(p)
    ensures var now := if signed.Some? then signed.value else 0;
            Verify(p, key, ShapeOf(c), Sign(p, key, c, signed, nonce), Some(read)).Ok?
            <==> read <= c.expiry && read <= now + 604800
  {
    SignedTokenVerdict(p, key, key, c, ShapeOf(c), signed, Some(read), nonce);
  }

  /** An accepted token has one spelling: it is the signer's envelope of the bytes it carries. No other
      base64 spelling, padding or separator placement of the same bytes and tag is accepted. */
  lemma AcceptedIsCanonical(p: Primitives, key: seq<Byte>, shape: Shape, token: string, clock: Option<U64>)
    requires Verify(p, key, shape, token, clock).Ok?
    ensures exists json :: token == Envelope(p, key, json) && Admit(p, shape, json, clock) == Verify(p, key, shape, token, clock)
  {
    var parts := SplitOn(token, '.');
    JoinSplit(token, '.');
    assert JoinOn(parts, '.') == parts[0] + "." + JoinOn(parts[1..], '.');
    EncodeDecode(parts[0]);
    EncodeDecode(parts[1]);
    var json := Decode(parts[0]).value;
    assert token == Envelope(p, key, json);
  }

  /** Equal tokens of the same executor claims need equal nonces: re-minting with a fresh nonce yields a
      different token. */
  lemma FreshNonceFreshToken(p: Primitives, key: seq<Byte>, c: Claims, signed: Option<U64>, n1: string, n2: string)
    requires Lawful(p) && c.Executor?
    ensures Sign(p, key, c, signed, n1) == Sign(p, key, c, signed, n2) <==> n1 == n2
  {
    if Sign(p, key, c, signed, n1) == Sign(p, key, c, signed, n2) {
      var kept := Clamped(c, signed);
      var w1, w2 := ToWire(kept, n1), ToWire(kept, n2);
      var j1, j2 := p.render(w1), p.render(w2);
      DecodeEncode(j1);
      DecodeEncode(j2);
      DecodeEncode(p.mac(key, j1));
      DecodeEncode(p.mac(key, j2));
      SplitPair(Encode(j1), '.', Encode(p.mac(key, j1)));
      SplitPair(Encode(j2), '.', Encode(p.mac(key, j2)));
      assert j1 == j2 && p.parse(j1) == Some(w1) && p.parse(j2) == Some(w2);
      assert w1["spawn"] == JStr(n1) && w2["spawn"] == JStr(n2);
    }
  }
}

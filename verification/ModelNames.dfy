/** Name resolution in a corpus of models: modules import modules, and a name is looked up in its own module and
    then in every module the imports reach. */
module ModelNames {

  type Mod = string
  type Name = string

  datatype Expr =
    | NameRef(name: Name)
    | App(opcode: Name, args: seq<Expr>)
    | Let(definition: Expr, body: Expr)
    | Lambda(body: Expr)
    | Literal

  datatype Decl = Var | Def(expr: Expr) | Other

  /** Declarations and imports of every parsed module. */
  datatype Models = Models(decls: map<Mod, map<Name, Decl>>, imports: map<Mod, set<Mod>>)

  predicate WellFormed(c: Models)
  {
    c.decls.Keys == c.imports.Keys
  }

  // ----- import reachability -----

  datatype Route = Here | Onward(before: Route, last: Mod)

  function Last(from: Mod, r: Route): Mod
  {
    if r.Here? then from else r.last
  }

  ghost predicate IsRoute(c: Models, from: Mod, r: Route)
  {
    r.Here? || (IsRoute(c, from, r.before) && Last(from, r.before) in c.imports && r.last in c.imports[Last(from, r.before)])
  }

  ghost predicate Reaches(c: Models, from: Mod, m: Mod)
  {
    exists r :: IsRoute(c, from, r) && Last(from, r) == m
  }

  // ----- lookup -----

  datatype Resolution = Found(owner: Mod, decl: Decl) | Missing | Ambiguous(owners: set<Mod>)

  predicate Owns(c: Models, m: Mod, name: Name)
  {
    m in c.decls && name in c.decls[m]
  }

  ghost function Owners(c: Models, mod: Mod, name: Name): set<Mod>
  {
    set m | m in c.decls && m != mod && name in c.decls[m] && Reaches(c, mod, m)
  }

  /** The module's own declaration, else the only one in reach; two in reach are an error. */
  ghost function Lookup(c: Models, mod: Mod, name: Name): Resolution
  {
    if Owns(c, mod, name) then Found(mod, c.decls[mod][name])
    else
      var owners := Owners(c, mod, name);
      if owners == {} then Missing
      else
        var m :| m in owners;
        if owners == {m} then Found(m, c.decls[m][name]) else Ambiguous(owners)
  }

  /** The owner of a name sees the same declaration. */
  lemma LookupAtOwner(c: Models, mod: Mod, name: Name)
    requires Lookup(c, mod, name).Found?
    ensures var r := Lookup(c, mod, name);
            Owns(c, r.owner, name) && c.decls[r.owner][name] == r.decl && Lookup(c, r.owner, name) == r
  {
  }

  // ----- names in expressions -----

  /** Every name and operator an expression mentions. */
  function NamesIn(e: Expr): set<Name>
  {
    match e
    case NameRef(n) => {n}
    case App(op, args) => (if op == "" then {} else {op}) + NamesInAll(args)
    case Let(d, b) => NamesIn(d) + NamesIn(b)
    case Lambda(b) => NamesIn(b)
    case Literal => {}
  }

  function NamesInAll(es: seq<Expr>): set<Name>
  {
    if es == [] then {} else NamesIn(es[0]) + NamesInAll(es[1..])
  }

  /** A direct part: an operand, a let's definition or body, a lambda's body. */
  ghost predicate PartOf(e: Expr, sub: Expr)
  {
    match e
    case NameRef(_) => false
    case App(_, args) => sub in args
    case Let(d, b) => sub == d || sub == b
    case Lambda(b) => sub == b
    case Literal => false
  }

  /** Each expression is a direct part of the one before. */
  ghost predicate Descends(p: seq<Expr>)
  {
    p != [] && forall i :: 0 <= i < |p| - 1 ==> PartOf(p[i], p[i + 1])
  }

  /** The expression is the name itself or applies it. */
  ghost predicate Names(e: Expr, n: Name)
  {
    e == NameRef(n) || (e.App? && e.opcode == n && n != "")
  }

  /** `n` is named at some depth of `e`, under lambdas and lets too. */
  ghost predicate Mentions(e: Expr, n: Name)
  {
    exists p :: Descends(p) && p[0] == e && Names(p[|p| - 1], n)
  }

  lemma MentionsHere(e: Expr, n: Name)
    requires Names(e, n)
    ensures Mentions(e, n)
  {
    var p := [e];
    assert Descends(p) && p[0] == e && Names(p[|p| - 1], n);
  }

  lemma MentionsIn(e: Expr, sub: Expr, n: Name)
    requires PartOf(e, sub) && Mentions(sub, n)
    ensures Mentions(e, n)
  {
    var p :| Descends(p) && p[0] == sub && Names(p[|p| - 1], n);
    var q := [e] + p;
    forall i | 0 <= i < |q| - 1
      ensures PartOf(q[i], q[i + 1])
    {
      if i > 0 { assert q[i] == p[i - 1] && q[i + 1] == p[i]; }
    }
    assert Descends(q) && q[0] == e && Names(q[|q| - 1], n);
  }

  lemma {:induction false} NamesInAllExact(es: seq<Expr>, n: Name)
    ensures n in NamesInAll(es) <==> exists i :: 0 <= i < |es| && n in NamesIn(es[i])
  {
    if es != [] {
      NamesInAllExact(es[1..], n);
      if i :| 0 <= i < |es[1..]| && n in NamesIn(es[1..][i]) {
        assert es[i + 1] == es[1..][i];
      }
      if i :| 0 <= i < |es| && n in NamesIn(es[i]) && i > 0 {
        assert es[1..][i - 1] == es[i];
      }
    }
  }

  /** A name that is found is named somewhere. */
  lemma {:induction false} FoundIsMentioned(e: Expr, n: Name)
    requires n in NamesIn(e)
    ensures Mentions(e, n)
  {
    if Names(e, n) {
      MentionsHere(e, n);
    } else {
      match e
      case App(op, args) => {
        NamesInAllExact(args, n);
        var i :| 0 <= i < |args| && n in NamesIn(args[i]);
        FoundIsMentioned(args[i], n);
        MentionsIn(e, args[i], n);
      }
      case Let(d, b) => {
        var sub := if n in NamesIn(d) then d else b;
        FoundIsMentioned(sub, n);
        MentionsIn(e, sub, n);
      }
      case Lambda(b) => {
        FoundIsMentioned(b, n);
        MentionsIn(e, b, n);
      }
    }
  }

  lemma PartNames(e: Expr, sub: Expr, n: Name)
    requires PartOf(e, sub) && n in NamesIn(sub)
    ensures n in NamesIn(e)
  {
    if e.App? {
      NamesInAllExact(e.args, n);
      var i :| 0 <= i < |e.args| && e.args[i] == sub;
    }
  }

  lemma {:induction false} MentionedIsFound(p: seq<Expr>, n: Name)
    requires Descends(p) && Names(p[|p| - 1], n)
    ensures n in NamesIn(p[0])
    decreases |p|
  {
    if |p| > 1 {
      var q := p[1..];
      assert forall i :: 0 <= i < |q| ==> q[i] == p[i + 1];
      MentionedIsFound(q, n);
      PartNames(p[0], p[1], n);
    }
  }

  /** The names of an expression are exactly those named somewhere in it. */
  lemma NamesExactly(e: Expr, n: Name)
    ensures n in NamesIn(e) <==> Mentions(e, n)
  {
    if n in NamesIn(e) {
      FoundIsMentioned(e, n);
    }
    if Mentions(e, n) {
      var p :| Descends(p) && p[0] == e && Names(p[|p| - 1], n);
      MentionedIsFound(p, n);
    }
  }

  // ----- read sets -----

  /** A name as seen from a module. */
  type Node = (Mod, Name)

  ghost function At(c: Models, k: Node): Resolution
  {
    Lookup(c, k.0, k.1)
  }

  /** Names as the owner sees them, without `self`. */
  ghost function Refs(owner: Mod, names: set<Name>, self: Name): set<Node>
  {
    set n | n in names && n != self :: (owner, n)
  }

  lemma RefsWithout(owner: Mod, names: set<Name>, self: Name, n: Name)
    requires n in names
    ensures n != self ==> (owner, n) in Refs(owner, names, self)
    ensures Refs(owner, names - {n}, self) == if n == self then Refs(owner, names, self) else Refs(owner, names, self) - {(owner, n)}
  {
  }

  /** The names a definition refers to, as its owner sees them; a reference to itself is passed over. */
  ghost function Targets(c: Models, k: Node): set<Node>
  {
    var r := At(c, k);
    if r.Found? && r.decl.Def? then Refs(r.owner, NamesIn(r.decl.expr), k.1) else {}
  }

  ghost function OwnVars(c: Models, k: Node): set<Node>
  {
    var r := At(c, k);
    if r.Found? && r.decl.Var? then {(r.owner, k.1)} else {}
  }

  datatype Walk = End | Via(next: Node, rest: Walk)

  ghost predicate Leads(c: Models, k: Node, w: Walk, n: Node)
    decreases w
  {
    match w
    case End => k == n
    case Via(t, rest) => t in Targets(c, k) && Leads(c, t, rest, n)
  }

  ghost predicate Refers(c: Models, k: Node, n: Node)
  {
    exists w :: Leads(c, k, w, n)
  }

  /** State variable `v` is reached from `k` by name reference. */
  ghost predicate ReadsVar(c: Models, k: Node, v: Node)
  {
    exists n :: Refers(c, k, n) && v in OwnVars(c, n)
  }

  /** No name reached from `k` is ambiguous. */
  ghost predicate Clean(c: Models, k: Node)
  {
    forall n :: Refers(c, k, n) ==> !At(c, n).Ambiguous?
  }

  ghost predicate Exact(c: Models, k: Node, s: set<Node>)
  {
    (forall v :: v in s <==> ReadsVar(c, k, v)) && Clean(c, k)
  }

  lemma RefersSelf(c: Models, k: Node)
    ensures Refers(c, k, k)
  {
    assert Leads(c, k, End, k);
  }

  lemma RefersOn(c: Models, k: Node, t: Node, n: Node)
    requires t in Targets(c, k) && Refers(c, t, n)
    ensures Refers(c, k, n)
  {
    var w :| Leads(c, t, w, n);
    assert Leads(c, k, Via(t, w), n);
  }

  lemma ReadsOwn(c: Models, k: Node, v: Node)
    requires v in OwnVars(c, k)
    ensures ReadsVar(c, k, v)
  {
    RefersSelf(c, k);
  }

  lemma ReadsOn(c: Models, k: Node, t: Node, v: Node)
    requires t in Targets(c, k) && ReadsVar(c, t, v)
    ensures ReadsVar(c, k, v)
  {
    var n :| Refers(c, t, n) && v in OwnVars(c, n);
    RefersOn(c, k, t, n);
  }

  /** A read is one's own or goes through a target. */
  lemma ReadsSplit(c: Models, k: Node, v: Node)
    requires ReadsVar(c, k, v)
    ensures v in OwnVars(c, k) || exists t :: t in Targets(c, k) && ReadsVar(c, t, v)
  {
    var n :| Refers(c, k, n) && v in OwnVars(c, n);
    var w :| Leads(c, k, w, n);
    if w.Via? {
      assert Leads(c, w.next, w.rest, n);
      assert Refers(c, w.next, n);
      assert ReadsVar(c, w.next, v);
    }
  }

  lemma UncleanOn(c: Models, k: Node, t: Node)
    requires t in Targets(c, k) && !Clean(c, t)
    ensures !Clean(c, k)
  {
    var n :| Refers(c, t, n) && At(c, n).Ambiguous?;
    RefersOn(c, k, t, n);
  }

  lemma CleanSplit(c: Models, k: Node)
    requires !At(c, k).Ambiguous? && forall t :: t in Targets(c, k) ==> Clean(c, t)
    ensures Clean(c, k)
  {
    forall n | Refers(c, k, n)
      ensures !At(c, n).Ambiguous?
    {
      var w :| Leads(c, k, w, n);
      if w.Via? {
        assert Leads(c, w.next, w.rest, n);
        assert Clean(c, w.next) && Refers(c, w.next, n);
      }
    }
  }

  // ----- reads, by what definitions mention -----

  /** The definition that `k` resolves to mentions another name, which its owner sees as `t`. */
  ghost predicate Cites(c: Models, k: Node, t: Node)
  {
    var r := At(c, k);
    r.Found? && r.decl.Def? && t.0 == r.owner && t.1 != k.1 && Mentions(r.decl.expr, t.1)
  }

  lemma TargetsExactly(c: Models, k: Node, t: Node)
    ensures t in Targets(c, k) <==> Cites(c, k, t)
  {
    var r := At(c, k);
    if r.Found? && r.decl.Def? {
      NamesExactly(r.decl.expr, t.1);
    }
  }

  /** Each name is cited by the definition of the one before. */
  ghost predicate Citations(c: Models, p: seq<Node>)
  {
    p != [] && forall i :: 0 <= i < |p| - 1 ==> Cites(c, p[i], p[i + 1])
  }

  /** Citations lead from `k` to a name that is declared as the state variable `v`. */
  ghost predicate Reads(c: Models, k: Node, v: Node)
  {
    exists p: seq<Node> :: Citations(c, p) && p[0] == k && At(c, p[|p| - 1]) == Found(v.0, Var) && p[|p| - 1].1 == v.1
  }

  lemma {:induction false} WalkIsCited(c: Models, k: Node, w: Walk, n: Node) returns (p: seq<Node>)
    requires Leads(c, k, w, n)
    ensures Citations(c, p) && p[0] == k && p[|p| - 1] == n
    decreases w
  {
    if w.End? {
      p := [k];
    } else {
      var q := WalkIsCited(c, w.next, w.rest, n);
      TargetsExactly(c, k, w.next);
      p := [k] + q;
      forall i | 0 <= i < |p| - 1
        ensures Cites(c, p[i], p[i + 1])
      {
        if i > 0 { assert p[i] == q[i - 1] && p[i + 1] == q[i]; }
      }
    }
  }

  lemma {:induction false} CitedIsWalk(c: Models, p: seq<Node>)
    requires Citations(c, p)
    ensures Refers(c, p[0], p[|p| - 1])
    decreases |p|
  {
    if |p| == 1 {
      RefersSelf(c, p[0]);
    } else {
      var q := p[1..];
      assert forall i :: 0 <= i < |q| ==> q[i] == p[i + 1];
      CitedIsWalk(c, q);
      TargetsExactly(c, p[0], p[1]);
      RefersOn(c, p[0], p[1], p[|p| - 1]);
    }
  }

  /** A variable is read exactly if citations lead to it, through lambdas, lets and applied operators alike. */
  lemma ReadsExactly(c: Models, k: Node, v: Node)
    ensures ReadsVar(c, k, v) <==> Reads(c, k, v)
  {
    if ReadsVar(c, k, v) {
      var n :| Refers(c, k, n) && v in OwnVars(c, n);
      var w :| Leads(c, k, w, n);
      var p := WalkIsCited(c, k, w, n);
    }
    if Reads(c, k, v) {
      var p: seq<Node> :| Citations(c, p) && p[0] == k && At(c, p[|p| - 1]) == Found(v.0, Var) && p[|p| - 1].1 == v.1;
      CitedIsWalk(c, p);
    }
  }
}

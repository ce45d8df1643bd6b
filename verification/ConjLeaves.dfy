/** Conjunction expansion: an invariant is split into leaves, and what refuses to split is reported. */
module ConjLeaves {

  import opened Options
  import opened ModelNames
  import Corpora

  /** The verdict on one name. A refusal counts the anonymous and named operands and the let wrappers. */
  datatype Expansion = Atom | Expanded(names: seq<Name>) | Refused(anon: nat, named: nat, lets: nat)

  // ----- the shape of a body -----

  function LetDepth(e: Expr): nat
  {
    if e.Let? then 1 + LetDepth(e.body) else 0
  }

  function Unwrapped(e: Expr): Expr
  {
    if e.Let? then Unwrapped(e.body) else e
  }

  predicate IsAnd(op: Name)
  {
    op == "and" || op == "actionAll"
  }

  predicate IsConjunction(e: Expr)
  {
    e.App? && IsAnd(e.opcode) && e.args != []
  }

  function Anonymous(args: seq<Expr>): (n: nat)
    ensures n <= |args|
  {
    if args == [] then 0 else (if args[0].NameRef? then 0 else 1) + Anonymous(args[1..])
  }

  predicate AllNames(args: seq<Expr>)
  {
    forall i :: 0 <= i < |args| ==> args[i].NameRef?
  }

  function NamesOf(args: seq<Expr>): (r: seq<Name>)
    requires AllNames(args)
    ensures |r| == |args| && forall i :: 0 <= i < |args| ==> args[i] == NameRef(r[i])
  {
    seq(|args|, i requires 0 <= i < |args| => args[i].name)
  }

  lemma {:induction false} NoneAnonymous(args: seq<Expr>)
    ensures Anonymous(args) == 0 <==> AllNames(args)
  {
    if args != [] {
      NoneAnonymous(args[1..]);
      assert AllNames(args) <==> args[0].NameRef? && AllNames(args[1..]) by {
        assert forall i :: 0 <= i < |args| - 1 ==> args[1..][i] == args[i + 1];
        assert forall i :: 1 <= i < |args| ==> args[i] == args[1..][i - 1];
      }
    }
  }

  /** A bare conjunction of names expands; any other conjunction, under lets or with other operands, is refused. */
  function ExpansionOf(e: Expr): Expansion
  {
    var inner := Unwrapped(e);
    if !IsConjunction(inner) then Atom
    else if !e.Let? && AllNames(inner.args) then Expanded(NamesOf(inner.args))
    else Refused(Anonymous(inner.args), |inner.args| - Anonymous(inner.args), LetDepth(e))
  }

  ghost function ExpansionAt(c: Models, k: Node): Expansion
  {
    var r := At(c, k);
    if r.Found? && r.decl.Def? then ExpansionOf(r.decl.expr) else Atom
  }

  /** Refusal is exactly a conjunction under lets or with an anonymous operand, and its counts say which. */
  lemma RefusedExactly(e: Expr)
    ensures ExpansionOf(e).Refused? <==> IsConjunction(Unwrapped(e)) && (e.Let? || !AllNames(Unwrapped(e).args))
    ensures ExpansionOf(e).Refused? ==>
      var r := ExpansionOf(e);
      r.anon + r.named == |Unwrapped(e).args| > 0 && (r.anon > 0 || r.lets > 0) && (r.lets > 0 <==> e.Let?)
  {
    if IsConjunction(Unwrapped(e)) {
      NoneAnonymous(Unwrapped(e).args);
    }
  }

  /** `n` lets stand around `inner`, which is no let. */
  ghost predicate Wraps(e: Expr, n: nat, inner: Expr)
    decreases n
  {
    if n == 0 then e == inner && !inner.Let? else e.Let? && Wraps(e.body, n - 1, inner)
  }

  /** The operands of a conjunction. */
  ghost predicate Joins(e: Expr, args: seq<Expr>)
  {
    args != [] && (e == App("and", args) || e == App("actionAll", args))
  }

  ghost predicate AreNames(args: seq<Expr>, names: seq<Name>)
  {
    |args| == |names| && forall i :: 0 <= i < |args| ==> args[i] == NameRef(names[i])
  }

  ghost function OtherOperands(args: seq<Expr>): set<nat>
  {
    set i: nat | i < |args| && !args[i].NameRef?
  }

  lemma {:induction false} WrapsExactly(e: Expr, n: nat, inner: Expr)
    ensures Wraps(e, n, inner) <==> n == LetDepth(e) && inner == Unwrapped(e)
    decreases e
  {
    if e.Let? && n > 0 {
      WrapsExactly(e.body, n - 1, inner);
    }
  }

  lemma {:induction false} AnonymousSnoc(args: seq<Expr>, a: Expr)
    ensures Anonymous(args + [a]) == Anonymous(args) + if a.NameRef? then 0 else 1
  {
    if args == [] {
      assert args + [a] == [a] && [a][1..] == [];
    } else {
      assert (args + [a])[1..] == args[1..] + [a];
      AnonymousSnoc(args[1..], a);
    }
  }

  lemma {:induction false} AnonymousCounts(args: seq<Expr>)
    ensures Anonymous(args) == |OtherOperands(args)|
  {
    if args == [] {
      assert OtherOperands(args) == {};
    } else {
      var last := |args| - 1;
      AnonymousCounts(args[..last]);
      AnonymousSnoc(args[..last], args[last]);
      assert args[..last] + [args[last]] == args;
      assert OtherOperands(args) == OtherOperands(args[..last]) + if args[last].NameRef? then {} else {last};
    }
  }

  /** The three verdicts on a body under `n` lets. A body that is no `and` or `actionAll` with operands is an atom; a
      bare one whose operands are all names expands to them; any other is refused, with its counts. */
  lemma ExpansionExactly(e: Expr, n: nat, inner: Expr)
    requires Wraps(e, n, inner)
    ensures ExpansionOf(e) == Atom <==> forall args :: !Joins(inner, args)
    ensures forall names :: ExpansionOf(e) == Expanded(names) <==> n == 0 && exists args :: Joins(inner, args) && AreNames(args, names)
    ensures forall args :: Joins(inner, args) && (n > 0 || OtherOperands(args) != {}) ==>
      var r := ExpansionOf(e);
      r.Refused? && r.anon == |OtherOperands(args)| && r.anon + r.named == |args| && r.lets == n
  {
    WrapsExactly(e, n, inner);
    if inner.App? {
      AnonymousCounts(inner.args);
      NoneAnonymous(inner.args);
      assert IsConjunction(inner) <==> Joins(inner, inner.args);
      if IsConjunction(inner) && n == 0 && AllNames(inner.args) {
        NamesAre(inner.args);
      }
    }
  }

  lemma NamesAre(args: seq<Expr>)
    requires AllNames(args)
    ensures forall names :: AreNames(args, names) <==> names == NamesOf(args)
  {
  }

  // ----- the leaves -----

  /** The rank witnesses that no conjunction contains itself through conjunctions. */
  ghost predicate ConjRanked(c: Models, rank: Node -> nat)
  {
    forall k, i :: ExpansionAt(c, k).Expanded? && 0 <= i < |ExpansionAt(c, k).names| ==>
      rank((At(c, k).owner, ExpansionAt(c, k).names[i])) < rank(k)
  }

  /** None when an ambiguous name is looked up. */
  ghost function Leaves(c: Models, rank: Node -> nat, k: Node): Option<seq<Node>>
    requires ConjRanked(c, rank)
    decreases rank(k), 1, 0
  {
    var r := At(c, k);
    if r.Ambiguous? then None
    else if !r.Found? || !r.decl.Def? then Some([k])
    else
      match ExpansionAt(c, k)
      case Expanded(names) =>
        assert forall i :: 0 <= i < |names| ==> rank((r.owner, names[i])) < rank(k);
        LeavesOf(c, rank, r.owner, names, rank(k))
      case Atom => Some([(r.owner, k.1)])
      case Refused(_, _, _) => Some([(r.owner, k.1)])
  }

  ghost function LeavesOf(c: Models, rank: Node -> nat, owner: Mod, names: seq<Name>, bound: nat): Option<seq<Node>>
    requires ConjRanked(c, rank) && forall i :: 0 <= i < |names| ==> rank((owner, names[i])) < bound
    decreases bound, 0, |names|
  {
    if names == [] then Some([])
    else
      var first := Leaves(c, rank, (owner, names[0]));
      var rest := LeavesOf(c, rank, owner, names[1..], bound);
      Joined(first, rest)
  }

  function Joined(a: Option<seq<Node>>, b: Option<seq<Node>>): Option<seq<Node>>
  {
    if a.None? || b.None? then None else Some(a.value + b.value)
  }

  lemma JoinedLaws(a: Option<seq<Node>>, b: Option<seq<Node>>, d: Option<seq<Node>>)
    ensures Joined(Some([]), a) == a && Joined(a, Some([])) == a
    ensures Joined(a, Joined(b, d)) == Joined(Joined(a, b), d)
  {
    if a.Some? && b.Some? && d.Some? {
      assert a.value + (b.value + d.value) == a.value + b.value + d.value;
    }
    if a.Some? {
      assert [] + a.value == a.value && a.value + [] == a.value;
    }
  }

  // ----- leaves do not expand -----

  lemma ExpansionAtOwner(c: Models, k: Node)
    requires At(c, k).Found?
    ensures At(c, (At(c, k).owner, k.1)) == At(c, k)
    ensures ExpansionAt(c, (At(c, k).owner, k.1)) == ExpansionAt(c, k)
  {
    LookupAtOwner(c, k.0, k.1);
  }

  ghost predicate NotExpandable(c: Models, k: Node)
  {
    !ExpansionAt(c, k).Expanded?
  }

  /** Every returned leaf is an atom or a refusal, so each conjunction-shaped leaf is one that is reported. */
  lemma {:induction false} LeavesDoNotExpand(c: Models, rank: Node -> nat, k: Node)
    requires ConjRanked(c, rank) && Leaves(c, rank, k).Some?
    ensures forall l :: l in Leaves(c, rank, k).value ==> NotExpandable(c, l)
    decreases rank(k), 1, 0
  {
    var r := At(c, k);
    if r.Found? && r.decl.Def? {
      ExpansionAtOwner(c, k);
      if ExpansionAt(c, k).Expanded? {
        ListDoesNotExpand(c, rank, r.owner, ExpansionAt(c, k).names, rank(k));
      }
    }
  }

  lemma {:induction false} ListDoesNotExpand(c: Models, rank: Node -> nat, owner: Mod, names: seq<Name>, bound: nat)
    requires ConjRanked(c, rank) && forall i :: 0 <= i < |names| ==> rank((owner, names[i])) < bound
    requires LeavesOf(c, rank, owner, names, bound).Some?
    ensures forall l :: l in LeavesOf(c, rank, owner, names, bound).value ==> NotExpandable(c, l)
    decreases bound, 0, |names|
  {
    if names != [] {
      LeavesDoNotExpand(c, rank, (owner, names[0]));
      ListDoesNotExpand(c, rank, owner, names[1..], bound);
    }
  }

  ghost predicate ConjunctionShaped(c: Models, k: Node)
  {
    At(c, k).Found? && At(c, k).decl.Def? && IsConjunction(Unwrapped(At(c, k).decl.expr))
  }

  /** Among the leaves, the refusals are exactly the ones whose body is a conjunction under any lets. */
  lemma BundlesAreRefused(c: Models, rank: Node -> nat, k: Node, l: Node)
    requires ConjRanked(c, rank) && Leaves(c, rank, k).Some? && l in Leaves(c, rank, k).value
    ensures ExpansionAt(c, l).Refused? <==> ConjunctionShaped(c, l)
  {
    LeavesDoNotExpand(c, rank, k);
    assert NotExpandable(c, l);
  }

  // ----- meaning is preserved -----

  /** An interpretation of expressions in a state: a conjunction holds when its operands do, and a name means what its
      definition means where it is defined. Everything else is free. */
  ghost predicate Respects(c: Models, truth: (Mod, Expr) -> bool)
  {
    && (forall m, e {:trigger truth(m, e)} :: IsConjunction(e) ==> (truth(m, e) <==> AllTrue(truth, m, e.args)))
    && (forall k: Node :: At(c, k).Found? && At(c, k).decl.Def? ==>
          Holds(truth, k) == truth(At(c, k).owner, At(c, k).decl.expr))
  }

  ghost predicate AllTrue(truth: (Mod, Expr) -> bool, m: Mod, args: seq<Expr>)
  {
    forall i :: 0 <= i < |args| ==> truth(m, args[i])
  }

  ghost predicate Holds(truth: (Mod, Expr) -> bool, k: Node)
  {
    truth(k.0, NameRef(k.1))
  }

  ghost predicate AllHold(truth: (Mod, Expr) -> bool, ks: seq<Node>)
  {
    forall l :: l in ks ==> Holds(truth, l)
  }

  lemma ConjunctionHolds(c: Models, truth: (Mod, Expr) -> bool, k: Node)
    requires Respects(c, truth) && ExpansionAt(c, k).Expanded?
    ensures Holds(truth, k) <==> forall i :: 0 <= i < |ExpansionAt(c, k).names| ==> Holds(truth, (At(c, k).owner, ExpansionAt(c, k).names[i]))
  {
    var r := At(c, k);
    var e := r.decl.expr;
    assert Holds(truth, k) == truth(r.owner, e);
    assert truth(r.owner, e) <==> AllTrue(truth, r.owner, e.args);
    var names := ExpansionAt(c, k).names;
    forall i | 0 <= i < |names|
      ensures truth(r.owner, e.args[i]) == Holds(truth, (r.owner, names[i]))
    {
      assert e.args[i] == NameRef(names[i]);
    }
  }

  lemma OwnerHolds(c: Models, truth: (Mod, Expr) -> bool, k: Node)
    requires Respects(c, truth) && At(c, k).Found? && At(c, k).decl.Def?
    ensures Holds(truth, (At(c, k).owner, k.1)) == Holds(truth, k)
  {
    ExpansionAtOwner(c, k);
  }

  /** An invariant holds in a state exactly when all its leaves do. */
  lemma {:induction false} LeavesPreserveMeaning(c: Models, rank: Node -> nat, truth: (Mod, Expr) -> bool, k: Node)
    requires ConjRanked(c, rank) && Respects(c, truth) && Leaves(c, rank, k).Some?
    ensures Holds(truth, k) <==> AllHold(truth, Leaves(c, rank, k).value)
    decreases rank(k), 1, 0
  {
    var r := At(c, k);
    if r.Found? && r.decl.Def? {
      if ExpansionAt(c, k).Expanded? {
        var names := ExpansionAt(c, k).names;
        ConjunctionHolds(c, truth, k);
        ListPreservesMeaning(c, rank, truth, r.owner, names, rank(k));
      } else {
        OwnerHolds(c, truth, k);
      }
    }
  }

  lemma {:induction false} ListPreservesMeaning(c: Models, rank: Node -> nat, truth: (Mod, Expr) -> bool, owner: Mod,
                                                names: seq<Name>, bound: nat)
    requires ConjRanked(c, rank) && Respects(c, truth)
    requires forall i :: 0 <= i < |names| ==> rank((owner, names[i])) < bound
    requires LeavesOf(c, rank, owner, names, bound).Some?
    ensures (forall i :: 0 <= i < |names| ==> Holds(truth, (owner, names[i]))) <==>
            AllHold(truth, LeavesOf(c, rank, owner, names, bound).value)
    decreases bound, 0, |names|
  {
    if names != [] {
      var first, rest := Leaves(c, rank, (owner, names[0])).value, LeavesOf(c, rank, owner, names[1..], bound).value;
      LeavesPreserveMeaning(c, rank, truth, (owner, names[0]));
      ListPreservesMeaning(c, rank, truth, owner, names[1..], bound);
      JoinHolds(truth, first, rest);
      SplitNames(truth, owner, names);
    }
  }

  lemma JoinHolds(truth: (Mod, Expr) -> bool, a: seq<Node>, b: seq<Node>)
    ensures AllHold(truth, a + b) <==> AllHold(truth, a) && AllHold(truth, b)
  {
    assert forall l :: l in a + b <==> l in a || l in b;
  }

  lemma SplitNames(truth: (Mod, Expr) -> bool, owner: Mod, names: seq<Name>)
    requires names != []
    ensures (forall i :: 0 <= i < |names| ==> Holds(truth, (owner, names[i]))) <==>
            Holds(truth, (owner, names[0])) && forall i :: 0 <= i < |names[1..]| ==> Holds(truth, (owner, names[1..][i]))
  {
    if Holds(truth, (owner, names[0])) && forall i :: 0 <= i < |names[1..]| ==> Holds(truth, (owner, names[1..][i])) {
      forall i | 0 <= i < |names|
        ensures Holds(truth, (owner, names[i]))
      {
        if i > 0 {
          assert names[1..][i - 1] == names[i];
        }
      }
    }
  }

  // ----- read sets -----

  lemma ReadsAtOwner(c: Models, k: Node, v: Node)
    requires At(c, k).Found?
    ensures ReadsVar(c, (At(c, k).owner, k.1), v) <==> ReadsVar(c, k, v)
  {
    ExpansionAtOwner(c, k);
    var o := (At(c, k).owner, k.1);
    assert Targets(c, o) == Targets(c, k) && OwnVars(c, o) == OwnVars(c, k);
    if ReadsVar(c, k, v) {
      ReadsSplit(c, k, v);
      SameReads(c, k, o, v);
    }
    if ReadsVar(c, o, v) {
      ReadsSplit(c, o, v);
      SameReads(c, o, k, v);
    }
  }

  lemma SameReads(c: Models, a: Node, b: Node, v: Node)
    requires Targets(c, a) == Targets(c, b) && OwnVars(c, a) == OwnVars(c, b)
    requires v in OwnVars(c, a) || exists t :: t in Targets(c, a) && ReadsVar(c, t, v)
    ensures ReadsVar(c, b, v)
  {
    if v in OwnVars(c, b) {
      ReadsOwn(c, b, v);
    } else {
      var t :| t in Targets(c, a) && ReadsVar(c, t, v);
      ReadsOn(c, b, t, v);
    }
  }

  lemma {:induction false} NamesInOperands(args: seq<Expr>)
    requires AllNames(args)
    ensures NamesInAll(args) == set n | n in NamesOf(args)
  {
    if args != [] {
      NamesInOperands(args[1..]);
      assert NamesOf(args) == [args[0].name] + NamesOf(args[1..]);
    }
  }

  /** The operator names themselves are not declared anywhere the definition can see. */
  ghost predicate BuiltinsUndeclared(c: Models)
  {
    forall m :: Lookup(c, m, "and").Missing? && Lookup(c, m, "actionAll").Missing?
  }

  ghost predicate SomeReads(c: Models, ks: seq<Node>, v: Node)
  {
    exists l :: l in ks && ReadsVar(c, l, v)
  }

  ghost function Conjuncts(owner: Mod, names: seq<Name>): (r: seq<Node>)
    ensures |r| == |names| && forall i :: 0 <= i < |names| ==> r[i] == (owner, names[i])
  {
    seq(|names|, i requires 0 <= i < |names| => (owner, names[i]))
  }

  lemma MissingReadsNothing(c: Models, k: Node, v: Node)
    requires At(c, k).Missing?
    ensures !ReadsVar(c, k, v)
  {
    if ReadsVar(c, k, v) {
      ReadsSplit(c, k, v);
      assert false;
    }
  }

  lemma ExpandedTargets(c: Models, rank: Node -> nat, k: Node)
    requires ConjRanked(c, rank) && ExpansionAt(c, k).Expanded?
    ensures OwnVars(c, k) == {}
    ensures forall n :: n in ExpansionAt(c, k).names ==> (At(c, k).owner, n) in Targets(c, k)
    ensures forall t :: t in Targets(c, k) ==>
      t.0 == At(c, k).owner && (t.1 in ExpansionAt(c, k).names || IsAnd(t.1))
  {
    var r := At(c, k);
    var e := r.decl.expr;
    var names := ExpansionAt(c, k).names;
    NamesInOperands(e.args);
    assert NamesIn(e) == {e.opcode} + NamesInAll(e.args);
    forall n | n in names
      ensures (r.owner, n) in Targets(c, k)
    {
      var i :| 0 <= i < |names| && names[i] == n;
      ExpandedNotSelf(c, rank, k, i);
      assert n in NamesIn(e);
    }
  }

  lemma ExpandedNotSelf(c: Models, rank: Node -> nat, k: Node, i: nat)
    requires ConjRanked(c, rank) && ExpansionAt(c, k).Expanded? && i < |ExpansionAt(c, k).names|
    ensures ExpansionAt(c, k).names[i] != k.1
  {
    ExpansionAtOwner(c, k);
    var o := (At(c, k).owner, k.1);
    assert rank((At(c, o).owner, ExpansionAt(c, o).names[i])) < rank(o);
  }

  /** A conjunction's operator name is declared in sight and reads `v`. */
  ghost predicate OperatorHere(c: Models, k: Node, v: Node)
  {
    ExpansionAt(c, k).Expanded? && exists t :: t in Targets(c, k) && t.1 !in ExpansionAt(c, k).names && ReadsVar(c, t, v)
  }

  /** So it is at `k` or at a conjunction that `k` expands to. */
  ghost predicate OperatorReads(c: Models, rank: Node -> nat, k: Node, v: Node)
    requires ConjRanked(c, rank)
    decreases rank(k), 1, 0
  {
    var r := At(c, k);
    r.Found? && r.decl.Def? && ExpansionAt(c, k).Expanded? &&
    var names := ExpansionAt(c, k).names;
    assert forall i :: 0 <= i < |names| ==> rank((r.owner, names[i])) < rank(k);
    OperatorHere(c, k, v) || OperatorReadsIn(c, rank, r.owner, names, rank(k), v)
  }

  ghost predicate OperatorReadsIn(c: Models, rank: Node -> nat, owner: Mod, names: seq<Name>, bound: nat, v: Node)
    requires ConjRanked(c, rank) && forall i :: 0 <= i < |names| ==> rank((owner, names[i])) < bound
    decreases bound, 0, |names|
  {
    names != [] && (OperatorReads(c, rank, (owner, names[0]), v) || OperatorReadsIn(c, rank, owner, names[1..], bound, v))
  }

  lemma ConjunctionReads(c: Models, rank: Node -> nat, k: Node, v: Node)
    requires ConjRanked(c, rank) && ExpansionAt(c, k).Expanded?
    ensures ReadsVar(c, k, v) <==> SomeReads(c, Conjuncts(At(c, k).owner, ExpansionAt(c, k).names), v) || OperatorHere(c, k, v)
  {
    var o, names := At(c, k).owner, ExpansionAt(c, k).names;
    var cs := Conjuncts(o, names);
    ExpandedTargets(c, rank, k);
    if SomeReads(c, cs, v) {
      var l :| l in cs && ReadsVar(c, l, v);
      ReadsOn(c, k, l, v);
    }
    if OperatorHere(c, k, v) {
      var t :| t in Targets(c, k) && t.1 !in names && ReadsVar(c, t, v);
      ReadsOn(c, k, t, v);
    }
    if ReadsVar(c, k, v) {
      ReadsSplit(c, k, v);
      var t :| t in Targets(c, k) && ReadsVar(c, t, v);
      if t.1 in names {
        InConjuncts(o, names, t);
      }
    }
  }

  lemma NoOperatorHere(c: Models, rank: Node -> nat, k: Node, v: Node)
    requires ConjRanked(c, rank) && BuiltinsUndeclared(c)
    ensures !OperatorHere(c, k, v)
  {
    if OperatorHere(c, k, v) {
      ExpandedTargets(c, rank, k);
      var t :| t in Targets(c, k) && t.1 !in ExpansionAt(c, k).names && ReadsVar(c, t, v);
      MissingReadsNothing(c, t, v);
      assert false;
    }
  }

  lemma InConjuncts(o: Mod, names: seq<Name>, t: Node)
    requires t.0 == o && t.1 in names
    ensures t in Conjuncts(o, names)
  {
    var i :| 0 <= i < |names| && names[i] == t.1;
    assert Conjuncts(o, names)[i] == t;
  }

  /** A conjunction reads exactly what its leaves read and what declared operator names on the way to them read; with
      the operator names undeclared there is no such read. */
  lemma {:induction false} LeavesPreserveReads(c: Models, rank: Node -> nat, k: Node, v: Node)
    requires ConjRanked(c, rank) && Leaves(c, rank, k).Some?
    ensures ReadsVar(c, k, v) <==> SomeReads(c, Leaves(c, rank, k).value, v) || OperatorReads(c, rank, k, v)
    ensures BuiltinsUndeclared(c) ==> !OperatorReads(c, rank, k, v)
    decreases rank(k), 1, 0
  {
    var r := At(c, k);
    if r.Found? && r.decl.Def? {
      if ExpansionAt(c, k).Expanded? {
        ConjunctionReads(c, rank, k, v);
        ListPreservesReads(c, rank, r.owner, ExpansionAt(c, k).names, rank(k), v);
        if BuiltinsUndeclared(c) { NoOperatorHere(c, rank, k, v); }
      } else {
        ReadsAtOwner(c, k, v);
        var o := (r.owner, k.1);
        assert Leaves(c, rank, k).value == [o] && o in [o];
      }
    } else {
      assert Leaves(c, rank, k).value == [k] && k in [k];
    }
  }

  lemma {:induction false} ListPreservesReads(c: Models, rank: Node -> nat, owner: Mod, names: seq<Name>, bound: nat, v: Node)
    requires ConjRanked(c, rank) && forall i :: 0 <= i < |names| ==> rank((owner, names[i])) < bound
    requires LeavesOf(c, rank, owner, names, bound).Some?
    ensures SomeReads(c, Conjuncts(owner, names), v)
       <==> SomeReads(c, LeavesOf(c, rank, owner, names, bound).value, v) || OperatorReadsIn(c, rank, owner, names, bound, v)
    ensures BuiltinsUndeclared(c) ==> !OperatorReadsIn(c, rank, owner, names, bound, v)
    decreases bound, 0, |names|
  {
    if names != [] {
      var head := (owner, names[0]);
      var first, rest := Leaves(c, rank, head).value, LeavesOf(c, rank, owner, names[1..], bound).value;
      LeavesPreserveReads(c, rank, head, v);
      ListPreservesReads(c, rank, owner, names[1..], bound, v);
      JoinReads(c, first, rest, v);
      assert Conjuncts(owner, names) == [head] + Conjuncts(owner, names[1..]);
      JoinReads(c, [head], Conjuncts(owner, names[1..]), v);
      OneReads(c, head, v);
    }
  }

  lemma JoinReads(c: Models, a: seq<Node>, b: seq<Node>, v: Node)
    ensures SomeReads(c, a + b, v) <==> SomeReads(c, a, v) || SomeReads(c, b, v)
  {
    assert forall l :: l in a + b <==> l in a || l in b;
  }

  lemma OneReads(c: Models, k: Node, v: Node)
    ensures SomeReads(c, [k], v) <==> ReadsVar(c, k, v)
  {
    assert k in [k];
  }

  // ----- the engine -----

  method Expand(corpus: Corpora.Corpus, mod: Mod, leaf: Name) returns (r: Option<Expansion>)
    requires corpus.Valid()
    modifies corpus`reachCache
    ensures corpus.Valid()
    ensures r == if At(corpus.models, (mod, leaf)).Ambiguous? then None else Some(ExpansionAt(corpus.models, (mod, leaf)))
  {
    var d := corpus.VisibleDecl(mod, leaf);
    if d.Ambiguous? {
      return None;
    }
    if d.Missing? || !d.decl.Def? {
      return Some(Atom);
    }
    var e := d.decl.expr;
    var lets, inner := 0, e;
    while inner.Let?
      invariant lets + LetDepth(inner) == LetDepth(e) && Unwrapped(inner) == Unwrapped(e)
      invariant lets > 0 || inner == e
      decreases inner
    {
      lets, inner := lets + 1, inner.body;
    }
    if !(inner.App? && IsAnd(inner.opcode)) || inner.args == [] {
      return Some(Atom);
    }
    var anon := Anonymous(inner.args);
    NoneAnonymous(inner.args);
    if lets == 0 && anon == 0 {
      return Some(Expanded(NamesOf(inner.args)));
    }
    return Some(Refused(anon, |inner.args| - anon, lets));
  }

  method ExpandLeaves(corpus: Corpora.Corpus, mod: Mod, inv: Name, ghost rank: Node -> nat)
    returns (r: Option<seq<Node>>)
    requires corpus.Valid() && ConjRanked(corpus.models, rank)
    modifies corpus`reachCache
    ensures corpus.Valid() && r == Leaves(corpus.models, rank, (mod, inv))
    decreases rank((mod, inv)), 1, 0
  {
    var d := corpus.VisibleDecl(mod, inv);
    if d.Ambiguous? {
      return None;
    }
    if d.Missing? || !d.decl.Def? {
      return Some([(mod, inv)]);
    }
    var verdict := Expand(corpus, mod, inv);
    if verdict.value.Expanded? {
      var names := verdict.value.names;
      var leaves := [];
      ghost var bound := rank((mod, inv));
      assert names[0..] == names;
      JoinedLaws(Leaves(corpus.models, rank, (mod, inv)), None, None);
      var i := 0;
      while i < |names|
        invariant i <= |names| && corpus.Valid()
        invariant forall j :: 0 <= j < |names| ==> rank((d.owner, names[j])) < bound
        invariant Leaves(corpus.models, rank, (mod, inv))
               == Joined(Some(leaves), LeavesOf(corpus.models, rank, d.owner, names[i..], bound))
      {
        var more := ExpandLeaves(corpus, d.owner, names[i], rank);
        assert names[i..][1..] == names[i + 1..];
        if more.None? {
          return None;
        }
        JoinedLaws(Some(leaves), more, LeavesOf(corpus.models, rank, d.owner, names[i + 1..], bound));
        leaves := leaves + more.value;
        i := i + 1;
      }
      JoinedLaws(Some(leaves), None, None);
      return Some(leaves);
    }
    return Some([(d.owner, inv)]);
  }
}

/** The matrices as text. Clusters and entries carry space-joined strings, and every consumer splits them again:
    the planner when it partitions clusters and attaches drvs, and the runner when it reads an entry. */
module JoinedMatrix {

  import opened Options
  import opened Fields
  import opened Words
  import opened Trunk
  import opened Clusters
  import opened Matrix

  datatype TextCluster = TextCluster(name: string, targets: string)
  datatype TextEntry = TextEntry(name: string, targets: string, drvs: string)

  function Write(c: Cluster): TextCluster
  {
    TextCluster(c.name, JoinOn(c.targets, ' '))
  }

  function Read(c: TextCluster): Cluster
  {
    Cluster(c.name, Split(c.targets))
  }

  function WriteAll(cs: seq<Cluster>): (r: seq<TextCluster>)
    ensures |r| == |cs|
  {
    seq(|cs|, i requires 0 <= i < |cs| => Write(cs[i]))
  }

  function ReadAll(cs: seq<TextCluster>): (r: seq<Cluster>)
    ensures |r| == |cs|
  {
    seq(|cs|, i requires 0 <= i < |cs| => Read(cs[i]))
  }

  /** The drvs of the targets that are read off each cluster, joined in turn. */
  function AttachText(cs: seq<TextCluster>, metas: Metas): (r: seq<TextEntry>)
    requires Known(ReadAll(cs), metas)
    ensures |r| == |cs|
  {
    seq(|cs|, i requires 0 <= i < |cs| =>
      (assert Read(cs[i]) == ReadAll(cs)[i];
       TextEntry(cs[i].name, cs[i].targets, JoinOn(Attach(Read(cs[i]), metas).drvs, ' '))))
  }

  /** What the runner reads off the entries. */
  function ReadEntries(es: seq<TextEntry>): (r: seq<Entry>)
    ensures |r| == |es|
  {
    seq(|es|, i requires 0 <= i < |es| => Entry(es[i].name, Split(es[i].targets), Split(es[i].drvs)))
  }

  // ----- the text round trip -----

  ghost predicate WordTargets(cs: seq<Cluster>)
  {
    forall i, t :: 0 <= i < |cs| && t in cs[i].targets ==> IsWord(t)
  }

  lemma RereadWords(cs: seq<Cluster>)
    requires WordTargets(cs)
    ensures ReadAll(WriteAll(cs)) == cs
  {
    forall i | 0 <= i < |cs|
      ensures Read(Write(cs[i])) == cs[i]
    {
      SplitJoin(cs[i].targets);
    }
  }

  /** Whatever is read off text consists of words. */
  lemma ReadYieldsWords(cs: seq<TextCluster>)
    ensures WordTargets(ReadAll(cs))
  {
    forall i, t | 0 <= i < |cs| && t in ReadAll(cs)[i].targets
      ensures IsWord(t)
    {
      SplitYieldsWords(cs[i].targets, "");
    }
  }

  lemma PartWords(cs: seq<Cluster>, metas: Metas, trunk: set<Drv>)
    requires WordTargets(cs)
    ensures WordTargets(Gated(cs, metas, trunk)) && WordTargets(Nowait(cs, metas, trunk))
  {
    PartitionTargets(cs, metas, trunk);
    KeptWords(cs, Gated(cs, metas, trunk), t => IsHot(metas, trunk, t));
    KeptWords(cs, Nowait(cs, metas, trunk), t => !IsHot(metas, trunk, t));
  }

  lemma KeptWords(cs: seq<Cluster>, part: seq<Cluster>, keep: string -> bool)
    requires WordTargets(cs) && AllTargets(part) == Filter(AllTargets(cs), keep)
    ensures WordTargets(part)
  {
    forall i, t | 0 <= i < |part| && t in part[i].targets
      ensures IsWord(t)
    {
      TargetListed(part, i, t);
      FilterCount(AllTargets(cs), keep, t);
      assert t in multiset(Filter(AllTargets(cs), keep)) && t in multiset(AllTargets(cs));
      var j := ListedTarget(cs, t);
    }
  }

  // ----- the emitted matrices -----

  /** The clusters as the planner reads them back from its own text. */
  ghost function Reread(pend: Pend, size: nat, kind: Kind): seq<Cluster>
    requires size > 0
  {
    ReadAll(WriteAll(ClustersOf(pend, kind, size)))
  }

  /** Every target the planner looks up is a pending entry; otherwise the lookup fails and nothing is emitted. */
  ghost predicate Readable(pend: Pend, size: nat, kind: Kind)
    requires size > 0
  {
    Known(Reread(pend, size, kind), MetasOf(pend, kind))
  }

  ghost function GatedText(pend: Pend, size: nat, trunk: set<Drv>, kind: Kind): seq<TextCluster>
    requires size > 0
  {
    if IsSplitKind(kind) then WriteAll(Gated(Reread(pend, size, kind), MetasOf(pend, kind), trunk))
    else WriteAll(ClustersOf(pend, kind, size))
  }

  ghost function NowaitText(pend: Pend, size: nat, trunk: set<Drv>, kind: Kind): seq<TextCluster>
    requires size > 0
  {
    if IsSplitKind(kind) then WriteAll(Nowait(Reread(pend, size, kind), MetasOf(pend, kind), trunk)) else []
  }

  lemma TextKnown(pend: Pend, size: nat, trunk: set<Drv>, kind: Kind)
    requires size > 0 && Readable(pend, size, kind)
    ensures Known(ReadAll(GatedText(pend, size, trunk, kind)), MetasOf(pend, kind))
    ensures Known(ReadAll(NowaitText(pend, size, trunk, kind)), MetasOf(pend, kind))
  {
    if IsSplitKind(kind) {
      var cs, metas := Reread(pend, size, kind), MetasOf(pend, kind);
      ReadYieldsWords(WriteAll(ClustersOf(pend, kind, size)));
      PartWords(cs, metas, trunk);
      PartitionKnown(cs, metas, trunk);
      RereadWords(Gated(cs, metas, trunk));
      RereadWords(Nowait(cs, metas, trunk));
    }
  }

  /** What the runners of one kind read: the waiting matrix and the other one. */
  ghost function GatedRead(pend: Pend, size: nat, trunk: set<Drv>, kind: Kind): seq<Entry>
    requires size > 0 && Readable(pend, size, kind)
  {
    TextKnown(pend, size, trunk, kind);
    ReadEntries(AttachText(GatedText(pend, size, trunk, kind), MetasOf(pend, kind)))
  }

  ghost function NowaitRead(pend: Pend, size: nat, trunk: set<Drv>, kind: Kind): seq<Entry>
    requires size > 0 && Readable(pend, size, kind)
  {
    TextKnown(pend, size, trunk, kind);
    ReadEntries(AttachText(NowaitText(pend, size, trunk, kind), MetasOf(pend, kind)))
  }

  /** Every pending name and drv of the kind is a word. */
  ghost predicate AllWords(metas: Metas)
  {
    forall t :: t in metas ==> IsWord(t) && IsWord(metas[t].drv)
  }

  lemma AttachWords(cs: seq<Cluster>, metas: Metas)
    requires Known(cs, metas) && WordTargets(cs) && AllWords(metas)
    ensures Known(ReadAll(WriteAll(cs)), metas) && ReadEntries(AttachText(WriteAll(cs), metas)) == AttachDrvs(cs, metas)
  {
    RereadWords(cs);
    forall i | 0 <= i < |cs|
      ensures ReadEntries(AttachText(WriteAll(cs), metas))[i] == AttachDrvs(cs, metas)[i]
    {
      assert ReadAll(WriteAll(cs))[i] == cs[i];
      var drvs := Attach(cs[i], metas).drvs;
      assert forall d :: d in drvs ==> IsWord(d);
      SplitJoin(drvs);
      SplitJoin(cs[i].targets);
    }
  }

  lemma ClusterWords(pend: Pend, size: nat, kind: Kind)
    requires size > 0 && AllWords(MetasOf(pend, kind))
    ensures WordTargets(ClustersOf(pend, kind, size))
  {
    ClustersKnown(pend, kind, size);
  }

  /** When every name and drv is a word, the text says exactly what the lists say. */
  lemma TextIsExact(pend: Pend, size: nat, trunk: set<Drv>, kind: Kind)
    requires size > 0 && AllWords(MetasOf(pend, kind))
    ensures Readable(pend, size, kind)
    ensures GatedRead(pend, size, trunk, kind) == GatedEntries(pend, size, trunk, kind)
    ensures NowaitRead(pend, size, trunk, kind) == NowaitEntries(pend, size, trunk, kind)
  {
    var cs, metas := ClustersOf(pend, kind, size), MetasOf(pend, kind);
    ClustersKnown(pend, kind, size);
    ClusterWords(pend, size, kind);
    RereadWords(cs);
    PartWords(cs, metas, trunk);
    PartitionKnown(cs, metas, trunk);
    AttachWords(cs, metas);
    AttachWords(Gated(cs, metas, trunk), metas);
    AttachWords(Nowait(cs, metas, trunk), metas);
  }

  // ----- delivery -----

  /** Some runner reads target `t` with drv `d` at the same position. */
  ghost predicate Delivers(es: seq<Entry>, t: string, d: Drv)
  {
    exists k, i :: 0 <= k < |es| && 0 <= i < |es[k].targets| && i < |es[k].drvs| && es[k].targets[i] == t && es[k].drvs[i] == d
  }

  /** The kind's text can be read and every pending entry reaches a runner with its own drv. */
  ghost predicate AllDelivered(pend: Pend, size: nat, trunk: set<Drv>, kind: Kind)
    requires size > 0
  {
    && Readable(pend, size, kind)
    && forall t :: t in MetasOf(pend, kind) ==>
         Delivers(GatedRead(pend, size, trunk, kind) + NowaitRead(pend, size, trunk, kind), t, MetasOf(pend, kind)[t].drv)
  }

  lemma DeliversWords(es: seq<TextEntry>, t: string, d: Drv)
    requires Delivers(ReadEntries(es), t, d)
    ensures IsWord(t) && IsWord(d)
  {
    var r := ReadEntries(es);
    var k, i :| 0 <= k < |r| && 0 <= i < |r[k].targets| && i < |r[k].drvs| && r[k].targets[i] == t && r[k].drvs[i] == d;
    SplitYieldsWords(es[k].targets, "");
    SplitYieldsWords(es[k].drvs, "");
  }

  lemma DeliversPart(a: seq<Entry>, b: seq<Entry>, t: string, d: Drv)
    ensures Delivers(a + b, t, d) <==> Delivers(a, t, d) || Delivers(b, t, d)
  {
    var es := a + b;
    if Delivers(es, t, d) {
      var k, i :| 0 <= k < |es| && 0 <= i < |es[k].targets| && i < |es[k].drvs| && es[k].targets[i] == t && es[k].drvs[i] == d;
      if k < |a| {
        assert a[k].targets[i] == t;
      } else {
        assert b[k - |a|].targets[i] == t;
      }
    }
    if Delivers(a, t, d) {
      var k, i :| 0 <= k < |a| && 0 <= i < |a[k].targets| && i < |a[k].drvs| && a[k].targets[i] == t && a[k].drvs[i] == d;
      assert es[k].targets[i] == t;
    }
    if Delivers(b, t, d) {
      var k, i :| 0 <= k < |b| && 0 <= i < |b[k].targets| && i < |b[k].drvs| && b[k].targets[i] == t && b[k].drvs[i] == d;
      assert es[|a| + k].targets[i] == t;
    }
  }

  lemma AttachDelivers(cs: seq<Cluster>, metas: Metas, k: nat, t: string)
    requires Known(cs, metas) && k < |cs| && t in cs[k].targets
    ensures t in metas && Delivers(AttachDrvs(cs, metas), t, metas[t].drv)
  {
    var i :| 0 <= i < |cs[k].targets| && cs[k].targets[i] == t;
    var es := AttachDrvs(cs, metas);
    assert es[k] == Attach(cs[k], metas);
    assert es[k].targets[i] == t && es[k].drvs[i] == metas[t].drv;
  }

  lemma ListDelivers(pend: Pend, size: nat, trunk: set<Drv>, kind: Kind, t: string)
    requires size > 0 && t in MetasOf(pend, kind)
    ensures Delivers(GatedEntries(pend, size, trunk, kind) + NowaitEntries(pend, size, trunk, kind), t, MetasOf(pend, kind)[t].drv)
  {
    var cs, metas := ClustersOf(pend, kind, size), MetasOf(pend, kind);
    ClustersKnown(pend, kind, size);
    ClustersConserve(pend, kind, size);
    assert t in multiset(Names(pend, kind));
    PartitionKnown(cs, metas, trunk);
    if IsSplitKind(kind) {
      SplitCount(cs, metas, trunk, t);
      if IsHot(metas, trunk, t) {
        var k := ListedTarget(Gated(cs, metas, trunk), t);
        AttachDelivers(Gated(cs, metas, trunk), metas, k, t);
      } else {
        var k := ListedTarget(Nowait(cs, metas, trunk), t);
        AttachDelivers(Nowait(cs, metas, trunk), metas, k, t);
      }
    } else {
      var k := ListedTarget(cs, t);
      AttachDelivers(cs, metas, k, t);
    }
    DeliversPart(GatedEntries(pend, size, trunk, kind), NowaitEntries(pend, size, trunk, kind), t, metas[t].drv);
  }

  /** Every pending entry reaches a runner exactly when every pending name and drv is a word: an empty or spaced one
      is lost in the text, or makes the lookup fail. */
  lemma DeliveredExactly(pend: Pend, size: nat, trunk: set<Drv>, kind: Kind)
    requires size > 0
    ensures AllDelivered(pend, size, trunk, kind) <==> AllWords(MetasOf(pend, kind))
  {
    var metas := MetasOf(pend, kind);
    if AllWords(metas) {
      TextIsExact(pend, size, trunk, kind);
      forall t | t in metas
        ensures Delivers(GatedRead(pend, size, trunk, kind) + NowaitRead(pend, size, trunk, kind), t, metas[t].drv)
      {
        ListDelivers(pend, size, trunk, kind, t);
      }
    }
    if AllDelivered(pend, size, trunk, kind) {
      forall t | t in metas
        ensures IsWord(t) && IsWord(metas[t].drv)
      {
        TextDeliversWords(pend, size, trunk, kind, t, metas[t].drv);
      }
    }
  }

  lemma TextDeliversWords(pend: Pend, size: nat, trunk: set<Drv>, kind: Kind, t: string, d: Drv)
    requires size > 0 && Readable(pend, size, kind)
    requires Delivers(GatedRead(pend, size, trunk, kind) + NowaitRead(pend, size, trunk, kind), t, d)
    ensures IsWord(t) && IsWord(d)
  {
    var metas := MetasOf(pend, kind);
    TextKnown(pend, size, trunk, kind);
    DeliversPart(GatedRead(pend, size, trunk, kind), NowaitRead(pend, size, trunk, kind), t, d);
    if Delivers(GatedRead(pend, size, trunk, kind), t, d) {
      DeliversWords(AttachText(GatedText(pend, size, trunk, kind), metas), t, d);
    } else {
      DeliversWords(AttachText(NowaitText(pend, size, trunk, kind), metas), t, d);
    }
  }

  /** Conservation of the text: with words throughout, the runners read each pending entry exactly once, with its own
      drv, and nothing else. */
  lemma TextConservation(pend: Pend, size: nat, trunk: set<Drv>, kind: Kind, t: string, d: Drv)
    requires size > 0 && AllWords(MetasOf(pend, kind))
    ensures Readable(pend, size, kind)
    ensures AllWellFormed(GatedRead(pend, size, trunk, kind)) && AllWellFormed(NowaitRead(pend, size, trunk, kind))
    ensures Scheduled(GatedRead(pend, size, trunk, kind), t, d) + Scheduled(NowaitRead(pend, size, trunk, kind), t, d)
         == if t in MetasOf(pend, kind) && MetasOf(pend, kind)[t].drv == d then 1 else 0
  {
    TextIsExact(pend, size, trunk, kind);
    Conservation(pend, size, trunk, kind, t, d);
  }

  // ----- an entry that is dropped -----

  /** An attribute without a dot has an empty name. */
  function Nameless(d: Drv): seq<EvalResult>
  {
    [EvalResult("checks", false, d, [d], None)]
  }

  lemma NamelessPending(d: Drv)
    ensures MetasOf(Pending(Nameless(d)), "checks").Keys == {""}
  {
    var r := Nameless(d);
    assert r[..0] == [];
    NoDot("checks");
    forall t
      ensures t in MetasOf(Pending(r), "checks") <==> t == ""
    {
      EnterLookup(Pending([]), r[0], "checks", t);
    }
  }

  lemma NoDot(attr: string)
    requires '.' !in attr
    ensures SplitAttr(attr) == (attr, "")
  {
  }

  lemma {:induction false} EmptyClustersVanish(cs: seq<Cluster>, metas: Metas, trunk: set<Drv>)
    requires forall i :: 0 <= i < |cs| ==> cs[i].targets == []
    ensures Gated(cs, metas, trunk) == [] && Nowait(cs, metas, trunk) == []
  {
    if cs != [] {
      EmptyClustersVanish(cs[..|cs| - 1], metas, trunk);
    }
  }

  /** The entry is pending, yet the text schedules nothing. */
  lemma NamelessEntryIsDropped(d: Drv, size: nat, trunk: set<Drv>)
    requires size > 0
    ensures "" in MetasOf(Pending(Nameless(d)), "checks") && Readable(Pending(Nameless(d)), size, "checks")
    ensures GatedRead(Pending(Nameless(d)), size, trunk, "checks") == [] && NowaitRead(Pending(Nameless(d)), size, trunk, "checks") == []
  {
    var pend := Pending(Nameless(d));
    NamelessPending(d);
    ClustersKnown(pend, "checks", size);
    AllNameless(pend, size);
    EmptyClustersVanish(Reread(pend, size, "checks"), MetasOf(pend, "checks"), trunk);
  }

  lemma AllNameless(pend: Pend, size: nat)
    requires size > 0 && MetasOf(pend, "checks").Keys == {""}
    ensures forall i :: 0 <= i < |Reread(pend, size, "checks")| ==> Reread(pend, size, "checks")[i].targets == []
  {
    var cs := ClustersOf(pend, "checks", size);
    ClustersKnown(pend, "checks", size);
    forall i | 0 <= i < |cs|
      ensures Split(JoinOn(cs[i].targets, ' ')) == []
    {
      forall k | 0 <= k < |cs[i].targets|
        ensures cs[i].targets[k] == ""
      {
        assert cs[i].targets[k] in MetasOf(pend, "checks");
      }
      BlankJoin(cs[i].targets);
      BlankSplit(JoinOn(cs[i].targets, ' '));
    }
  }

  lemma {:induction false} BlankJoin(ws: seq<string>)
    requires forall i :: 0 <= i < |ws| ==> ws[i] == ""
    ensures forall i :: 0 <= i < |JoinOn(ws, ' ')| ==> IsSpace(JoinOn(ws, ' ')[i])
  {
    if |ws| > 1 {
      BlankJoin(ws[1..]);
      assert JoinOn(ws, ' ') == " " + JoinOn(ws[1..], ' ');
    }
  }

  lemma {:induction false} BlankSplit(s: string)
    requires forall i :: 0 <= i < |s| ==> IsSpace(s[i])
    ensures Split(s) == []
  {
    if s != "" {
      BlankSplit(s[1..]);
    }
  }
}

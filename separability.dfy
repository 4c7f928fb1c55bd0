/** What `analyze_separable_regions` (runtime/partitioner.cpp) computes, stated
    without the union-find: the qubits registered by the operation list, in
    registration order, and the links its multi-qubit gates put between them.
    The partitions are the connected components of those links, each listed in
    registration order, ordered by their first qubit. */
module Separability {
  import opened Wrappers
  import opened OpDecoding
  import opened Grouping
  import opened Connectivity

  /** The qubits `QALLOC reg n` names: reg[0], ..., reg[n-1]. */
  function AllocRefs(reg: string, n: nat): (r: seq<QubitRef>)
    ensures |r| == n && forall i :: 0 <= i < n ==> r[i] == QubitRef(reg, i)
  {
    seq(n, (i: nat) => QubitRef(reg, i))
  }

  /** The qubits one operation passes to `get_id`, in order. */
  function Touched(e: Effect): seq<QubitRef> {
    match e
    case Alloc(reg, n) => AllocRefs(reg, n)
    case Couple(qs) => qs
    case _ => []
  }

  /** `get_id` on each of ts in turn: a qubit seen before keeps its id, a new
      one is appended. */
  function Register(known: seq<QubitRef>, ts: seq<QubitRef>): (r: seq<QubitRef>)
    ensures forall q :: q in r <==> q in known || q in ts
  {
    if |ts| == 0 then known
    else
      var k := Register(known, ts[..|ts| - 1]);
      assert ts == ts[..|ts| - 1] + [ts[|ts| - 1]];
      if ts[|ts| - 1] in k then k else k + [ts[|ts| - 1]]
  }

  /** Registering only appends, and never twice the same qubit. */
  lemma {:induction false} RegisterKeeps(known: seq<QubitRef>, ts: seq<QubitRef>)
    ensures |known| <= |Register(known, ts)| && Register(known, ts)[..|known|] == known
    ensures Distinct(known) ==> Distinct(Register(known, ts))
  {
    if |ts| > 0 {
      RegisterKeeps(known, ts[..|ts| - 1]);
    }
  }

  /** How the analysis loop classifies each operation. */
  function Effects(ops: seq<seq<string>>): (es: seq<Effect>)
    ensures |es| == |ops| && forall t :: 0 <= t < |ops| ==> es[t] == Classify(ops[t])
  {
    seq(|ops|, t requires 0 <= t < |ops| => Classify(ops[t]))
  }

  /** The `qubits` vector after the analysis loop: every qubit in the order of
      its first registration, none twice. */
  function Registered(es: seq<Effect>): seq<QubitRef> {
    if |es| == 0 then []
    else Register(Registered(es[..|es| - 1]), Touched(es[|es| - 1]))
  }

  lemma {:induction false} RegisteredDistinct(es: seq<Effect>)
    ensures Distinct(Registered(es))
  {
    if |es| > 0 {
      RegisteredDistinct(es[..|es| - 1]);
      RegisterKeeps(Registered(es[..|es| - 1]), Touched(es[|es| - 1]));
    }
  }

  /** The `unite` calls of one operation: the first operand with each other one. */
  function Links(e: Effect): seq<(QubitRef, QubitRef)> {
    if e.Couple? && |e.qs| > 0 then seq(|e.qs| - 1, k requires 0 <= k < |e.qs| - 1 => (e.qs[0], e.qs[k + 1]))
    else []
  }

  /** Every link the analysis loop makes, in order. */
  function AllEdges(es: seq<Effect>): seq<(QubitRef, QubitRef)> {
    if |es| == 0 then []
    else AllEdges(es[..|es| - 1]) + Links(es[|es| - 1])
  }

  /** Some `stoul` throws, so the analysis returns nothing. */
  predicate Aborts(es: seq<Effect>) {
    |es| > 0 && (Aborts(es[..|es| - 1]) || es[|es| - 1].Fails?)
  }

  // ---------------------------------------------------------------------------
  // The reference partition

  /** The first registered position whose qubit is linked to x, searching from j. */
  ghost function FirstLinked(R: seq<QubitRef>, E: seq<(QubitRef, QubitRef)>, x: QubitRef, j: nat): (m: nat)
    requires j <= |R|
    ensures j <= m <= |R|
    ensures m < |R| ==> Joined(E, R[m], x)
    ensures forall i :: j <= i < m ==> !Joined(E, R[i], x)
    decreases |R| - j
  {
    if j == |R| then j
    else if Joined(E, R[j], x) then j
    else FirstLinked(R, E, x, j + 1)
  }

  /** Each registered qubit labelled by the first qubit of its component. */
  ghost function LinkLabels(R: seq<QubitRef>, E: seq<(QubitRef, QubitRef)>): (L: seq<nat>)
    ensures |L| == |R|
  {
    seq(|R|, i requires 0 <= i < |R| => FirstLinked(R, E, R[i], 0))
  }

  /** The result the analysis promises: components in order of their first
      qubit, each in registration order. */
  ghost function PartitionsSpec(es: seq<Effect>): seq<seq<QubitRef>> {
    Output(Registered(es), LinkLabels(Registered(es), AllEdges(es)))
  }

  // ---------------------------------------------------------------------------
  // Registration and links

  /** Some operation of es passes q to `get_id`. */
  ghost predicate TouchedBy(es: seq<Effect>, q: QubitRef) {
    exists t :: 0 <= t < |es| && q in Touched(es[t])
  }

  lemma TouchedByLast(es: seq<Effect>, q: QubitRef)
    requires |es| > 0
    ensures TouchedBy(es, q) <==> TouchedBy(es[..|es| - 1], q) || q in Touched(es[|es| - 1])
  {
    var m := |es| - 1;
    if TouchedBy(es, q) {
      var t :| 0 <= t < |es| && q in Touched(es[t]);
      if t < m {
        assert es[..m][t] == es[t];
      }
    }
    if TouchedBy(es[..m], q) {
      var t :| 0 <= t < m && q in Touched(es[..m][t]);
      assert es[..m][t] == es[t];
    }
  }

  /** Exactly the qubits some QALLOC or multi-qubit gate names are registered;
      a qubit only ever used by single-qubit gates is not. */
  lemma {:induction false} RegisteredIff(es: seq<Effect>, q: QubitRef)
    ensures q in Registered(es) <==> TouchedBy(es, q)
  {
    if |es| > 0 {
      var m := |es| - 1;
      RegisteredIff(es[..m], q);
      TouchedByLast(es, q);
      assert Registered(es) == Register(Registered(es[..m]), Touched(es[m]));
    }
  }

  /** Every link joins two registered qubits. */
  lemma {:induction false} EdgesRegistered(es: seq<Effect>)
    ensures forall l :: l in AllEdges(es) ==> l.0 in Registered(es) && l.1 in Registered(es)
  {
    if |es| > 0 {
      var m := |es| - 1;
      EdgesRegistered(es[..m]);
      assert AllEdges(es) == AllEdges(es[..m]) + Links(es[m]);
      LinksTouched(es[m]);
      var r0 := Registered(es[..m]);
      assert Registered(es) == Register(r0, Touched(es[m]));
    }
  }

  /** A link joins two operands of its gate. */
  lemma LinksTouched(e: Effect)
    ensures forall l :: l in Links(e) ==> l.0 in Touched(e) && l.1 in Touched(e)
  {
    forall l | l in Links(e)
      ensures l.0 in Touched(e) && l.1 in Touched(e)
    {
      var k :| 0 <= k < |Links(e)| && Links(e)[k] == l;
      assert l == (e.qs[0], e.qs[k + 1]);
    }
  }

  /** Every link of every operation is among all the links. */
  lemma {:induction false} EdgesInclude(es: seq<Effect>, t: nat)
    requires t < |es|
    ensures forall l :: l in Links(es[t]) ==> l in AllEdges(es)
  {
    var m := |es| - 1;
    var pre, last := AllEdges(es[..m]), Links(es[m]);
    assert AllEdges(es) == pre + last;
    if t < m {
      EdgesInclude(es[..m], t);
      assert es[..m][t] == es[t];
      IncludedLeft(Links(es[t]), pre, last);
    } else {
      IncludedRight(Links(es[t]), pre, last);
    }
  }

  lemma IncludedLeft<T>(c: seq<T>, a: seq<T>, b: seq<T>)
    requires forall l :: l in c ==> l in a
    ensures forall l :: l in c ==> l in a + b
  {
  }

  lemma IncludedRight<T>(c: seq<T>, a: seq<T>, b: seq<T>)
    requires c == b
    ensures forall l :: l in c ==> l in a + b
  {
  }

  /** The operands of each multi-qubit gate are linked to each other. */
  lemma CoupledJoined(es: seq<Effect>, t: nat, i: nat, j: nat)
    requires t < |es| && es[t].Couple?
    requires i < |es[t].qs| && j < |es[t].qs|
    ensures Joined(AllEdges(es), es[t].qs[i], es[t].qs[j])
  {
    var qs, E := es[t].qs, AllEdges(es);
    EdgesInclude(es, t);
    assert forall k :: 0 < k < |qs| ==> Joined(E, qs[0], qs[k]) by {
      forall k | 0 < k < |qs|
        ensures Joined(E, qs[0], qs[k])
      {
        assert Links(es[t])[k - 1] == (qs[0], qs[k]);
        JoinedLink(E, qs[0], qs[k]);
      }
    }
    JoinedRefl(E, qs[0]);
    JoinedSym(E, qs[0], qs[i]);
    JoinedTrans(E, qs[i], qs[0], qs[j]);
  }

  // ---------------------------------------------------------------------------
  // The labels

  /** Linked qubits search for the same first linked qubit. */
  lemma {:induction false} FirstLinkedSame(R: seq<QubitRef>, E: seq<(QubitRef, QubitRef)>, x: QubitRef, y: QubitRef, j: nat)
    requires j <= |R| && Joined(E, x, y)
    ensures FirstLinked(R, E, x, j) == FirstLinked(R, E, y, j)
    decreases |R| - j
  {
    if j < |R| {
      JoinedSym(E, x, y);
      if Joined(E, R[j], x) {
        JoinedTrans(E, R[j], x, y);
      } else if Joined(E, R[j], y) {
        JoinedTrans(E, R[j], y, x);
      } else {
        FirstLinkedSame(R, E, x, y, j + 1);
      }
    }
  }

  /** Two registered qubits get the same label exactly when they are linked. */
  lemma LinkLabelsIff(R: seq<QubitRef>, E: seq<(QubitRef, QubitRef)>, i: nat, j: nat)
    requires i < |R| && j < |R|
    ensures LinkLabels(R, E)[i] == LinkLabels(R, E)[j] <==> Joined(E, R[i], R[j])
  {
    var L := LinkLabels(R, E);
    JoinedRefl(E, R[i]);
    JoinedRefl(E, R[j]);
    assert FirstLinked(R, E, R[i], 0) <= i && FirstLinked(R, E, R[j], 0) <= j;
    if Joined(E, R[i], R[j]) {
      FirstLinkedSame(R, E, R[i], R[j], 0);
    }
    if L[i] == L[j] {
      var m := L[i];
      JoinedSym(E, R[m], R[i]);
      JoinedTrans(E, R[i], R[m], R[j]);
    }
  }

  // ---------------------------------------------------------------------------
  // What the partition promises

  /** Every registered qubit lies in exactly one partition, and partitions
      hold registered qubits only. */
  lemma PartitionsCover(es: seq<Effect>, q: QubitRef)
    ensures q in Registered(es) ==>
              exists k :: 0 <= k < |PartitionsSpec(es)| && q in PartitionsSpec(es)[k]
    ensures forall k1, k2 :: (0 <= k1 < |PartitionsSpec(es)| && 0 <= k2 < |PartitionsSpec(es)| &&
                              q in PartitionsSpec(es)[k1] && q in PartitionsSpec(es)[k2]) ==> k1 == k2
    ensures forall k :: 0 <= k < |PartitionsSpec(es)| && q in PartitionsSpec(es)[k] ==> q in Registered(es)
  {
    var R, L := Registered(es), LinkLabels(Registered(es), AllEdges(es));
    assert PartitionsSpec(es) == Output(R, L);
    RegisteredDistinct(es);
    OutputCover(R, L, q);
  }

  /** Two registered qubits share a partition exactly when a chain of
      multi-qubit gates links them. */
  lemma PartitionsTogether(es: seq<Effect>, x: QubitRef, y: QubitRef, k1: nat, k2: nat)
    requires k1 < |PartitionsSpec(es)| && k2 < |PartitionsSpec(es)|
    requires x in PartitionsSpec(es)[k1] && y in PartitionsSpec(es)[k2]
    ensures k1 == k2 <==> Joined(AllEdges(es), x, y)
  {
    var R, E := Registered(es), AllEdges(es);
    assert PartitionsSpec(es) == Output(R, LinkLabels(R, E));
    RegisteredDistinct(es);
    var p, q := OutputTogetherItems(R, LinkLabels(R, E), x, y, k1, k2);
    LinkLabelsIff(R, E, p, q);
  }

  /** Partitions come in the registration order of their first qubits, and
      each lists its qubits in registration order. */
  lemma PartitionsOrdered(es: seq<Effect>)
    ensures forall k :: 0 <= k < |PartitionsSpec(es)| ==> PartitionsSpec(es)[k] != []
    ensures forall k1, k2 :: 0 <= k1 < k2 < |PartitionsSpec(es)| ==>
              IndexOf(Registered(es), PartitionsSpec(es)[k1][0]) < IndexOf(Registered(es), PartitionsSpec(es)[k2][0])
    ensures forall k, i, j :: 0 <= k < |PartitionsSpec(es)| && 0 <= i < j < |PartitionsSpec(es)[k]| ==>
              IndexOf(Registered(es), PartitionsSpec(es)[k][i]) < IndexOf(Registered(es), PartitionsSpec(es)[k][j])
  {
    var R, L := Registered(es), LinkLabels(Registered(es), AllEdges(es));
    assert PartitionsSpec(es) == Output(R, L);
    RegisteredDistinct(es);
    OutputInOrder(R, L);
  }

  /** The partitions hold as many qubits as were registered. */
  lemma PartitionsTotal(es: seq<Effect>)
    ensures TotalSize(PartitionsSpec(es)) == |Registered(es)|
  {
    var R := Registered(es);
    OutputTotal(R, LinkLabels(R, AllEdges(es)));
  }

  // ---------------------------------------------------------------------------
  // tests/partitioner_test.cpp: registers a and b of one qubit each, touched
  // only by single-qubit gates, fall into two partitions.

  function ExampleOps(): seq<seq<string>> {
    [["QALLOC", "a", "1"], ["QALLOC", "b", "1"], ["H", "a", "0"], ["X", "b", "0"]]
  }

  lemma ExampleEffects()
    ensures Effects(ExampleOps()) == [Alloc("a", 1), Alloc("b", 1), Skip, Skip]
  {
    var ops := ExampleOps();
    AllocOne("a");
    AllocOne("b");
    ClassifySingle(ops[2]);
    ClassifySingle(ops[3]);
    var es := Effects(ops);
    assert es[0] == Alloc("a", 1) && es[1] == Alloc("b", 1) && es[2] == Skip && es[3] == Skip;
  }

  lemma AllocOne(reg: string)
    ensures Classify(["QALLOC", reg, "1"]) == Alloc(reg, 1)
  {
    StoulDecimal([], 1, []);
    assert Decimal(1) == "1";
    assert [] + "1" + [] == "1";
  }

  /** The analysis state after one more operation. */
  lemma Snoc(es: seq<Effect>, e: Effect)
    ensures Aborts(es + [e]) <==> Aborts(es) || e.Fails?
    ensures AllEdges(es + [e]) == AllEdges(es) + Links(e)
    ensures Registered(es + [e]) == Register(Registered(es), Touched(e))
  {
    assert (es + [e])[..|es|] == es;
  }

  lemma ExampleRegistered()
    ensures !Aborts(Effects(ExampleOps())) && AllEdges(Effects(ExampleOps())) == []
    ensures Registered(Effects(ExampleOps())) == [QubitRef("a", 0), QubitRef("b", 0)]
  {
    ExampleEffects();
    var a, b := Alloc("a", 1), Alloc("b", 1);
    assert AllocRefs("a", 1) == [QubitRef("a", 0)];
    assert AllocRefs("b", 1) == [QubitRef("b", 0)];
    Snoc([], a);
    assert [] + [a] == [a];
    Snoc([a], b);
    assert [a] + [b] == [a, b];
    Snoc([a, b], Skip);
    assert [a, b] + [Skip] == [a, b, Skip];
    Snoc([a, b, Skip], Skip);
    assert [a, b, Skip] + [Skip] == [a, b, Skip, Skip];
  }

  /** Two different qubits and no link: each is its own component. */
  lemma LabelsIsolated(x: QubitRef, y: QubitRef)
    requires x != y
    ensures LinkLabels([x, y], []) == [0, 1]
  {
    var R, E: seq<(QubitRef, QubitRef)> := [x, y], [];
    JoinedRefl(E, x);
    JoinedRefl(E, y);
    JoinedIsolated(E, x, y);
    assert FirstLinked(R, E, x, 0) == 0;
    assert FirstLinked(R, E, y, 0) == 1;
  }

  lemma ExamplePartitions()
    ensures PartitionsSpec(Effects(ExampleOps())) == [[QubitRef("a", 0)], [QubitRef("b", 0)]]
  {
    ExampleRegistered();
    LabelsIsolated(QubitRef("a", 0), QubitRef("b", 0));
    OutputPair(QubitRef("a", 0), QubitRef("b", 0));
  }
}

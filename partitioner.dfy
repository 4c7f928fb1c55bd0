/** `analyze_separable_regions` of runtime/partitioner.cpp as the program runs
    it: a loop over the operations that registers qubits through `get_id` and
    unites the operands of every multi-qubit gate in a `DSU`, then the loops
    that group the registered qubits by representative and order the groups.
    Each method is proved against the reference partition of module
    Separability. */
module Partitioner {
  import opened Wrappers
  import opened OpDecoding
  import opened Grouping
  import opened Connectivity
  import opened UnionFind
  import opened Separability

  // ---------------------------------------------------------------------------
  // What the union-find holds between operations

  /** The labelling L of the registered qubits R puts two of them together
      exactly when the links E join them. */
  ghost predicate Represents(L: seq<nat>, R: seq<QubitRef>, E: seq<(QubitRef, QubitRef)>) {
    |L| == |R| && forall i, j :: 0 <= i < |R| && 0 <= j < |R| ==> (L[i] == L[j] <==> Joined(E, R[i], R[j]))
  }

  /** Every link joins two registered qubits. */
  ghost predicate Within(E: seq<(QubitRef, QubitRef)>, R: seq<QubitRef>) {
    forall e :: e in E ==> e.0 in R && e.1 in R
  }

  /** The state of the analysis after some operations whose links are E:
      `idx` maps each registered qubit to its position in `qubits`, the
      forest has one element per registered qubit, and its representatives
      are the components of E. */
  ghost predicate Tracks(dsu: DSU, idx: map<QubitRef, nat>, qubits: seq<QubitRef>, E: seq<(QubitRef, QubitRef)>)
    reads dsu
  {
    dsu.Valid() && TracksAt(dsu.parent, dsu.rank, dsu.top, idx, qubits, E)
  }

  /** Tracks, over the forest's fields as plain values. */
  ghost predicate TracksAt(parent: seq<nat>, rank: seq<nat>, top: nat, idx: map<QubitRef, nat>,
                           qubits: seq<QubitRef>, E: seq<(QubitRef, QubitRef)>) {
    Forest(parent, rank, top) && |parent| == |qubits| &&
    (forall q :: q in idx <==> q in qubits) &&
    (forall q :: q in idx ==> idx[q] < |qubits| && qubits[idx[q]] == q) &&
    Within(E, qubits) && Represents(Roots(parent, rank, top), qubits, E)
  }

  /** A qubit no link touches is joined to itself only, in either direction. */
  lemma Isolated(E: seq<(QubitRef, QubitRef)>, q: QubitRef, x: QubitRef)
    requires forall e :: e in E ==> e.0 != q && e.1 != q
    ensures Joined(E, q, x) <==> q == x
    ensures Joined(E, x, q) <==> q == x
  {
    JoinedIsolated(E, q, x);
    if Joined(E, x, q) {
      JoinedSym(E, x, q);
    }
  }

  /** `dsu.add()` for a new qubit: its fresh singleton is its own component. */
  lemma RegisterFresh(L: seq<nat>, R: seq<QubitRef>, E: seq<(QubitRef, QubitRef)>, q: QubitRef)
    requires Represents(L, R, E) && Within(E, R) && q !in R
    requires forall i :: 0 <= i < |L| ==> L[i] < |L|
    ensures Represents(L + [|L|], R + [q], E) && Within(E, R + [q])
  {
    var L', R' := L + [|L|], R + [q];
    forall i, j | 0 <= i < |R'| && 0 <= j < |R'|
      ensures L'[i] == L'[j] <==> Joined(E, R'[i], R'[j])
    {
      if i == |R| {
        Isolated(E, q, R'[j]);
      } else if j == |R| {
        Isolated(E, q, R'[i]);
      } else {
        assert L'[i] == L[i] && L'[j] == L[j] && R'[i] == R[i] && R'[j] == R[j];
      }
    }
  }

  /** `dsu.unite(a, b)` for the link (R[a], R[b]): relabelling b's set with
      a's label represents the links with the new one added. */
  lemma UniteRepresents(L: seq<nat>, L': seq<nat>, R: seq<QubitRef>, E: seq<(QubitRef, QubitRef)>, a: nat, b: nat)
    requires Represents(L, R, E) && Within(E, R) && Relabelled(L, L', a, b)
    ensures Represents(L', R, E + [(R[a], R[b])]) && Within(E + [(R[a], R[b])], R)
  {
    forall i, j | 0 <= i < |R| && 0 <= j < |R|
      ensures L'[i] == L'[j] <==> Joined(E + [(R[a], R[b])], R[i], R[j])
    {
      JoinedExtend(E, R[a], R[b], R[i], R[j]);
    }
  }

  /** One more qubit handed to `get_id`, as Register unfolds it. */
  lemma RegisterStep(known: seq<QubitRef>, ts: seq<QubitRef>, k: nat)
    requires k < |ts|
    ensures var r := Register(known, ts[..k]);
            Register(known, ts[..k + 1]) == if ts[k] in r then r else r + [ts[k]]
  {
    assert ts[..k + 1][..k] == ts[..k];
  }

  // ---------------------------------------------------------------------------
  // The analysis loop

  /** `get_id(q)`: the position of q, registering it first when it is new. */
  method GetId(dsu: DSU, idx: map<QubitRef, nat>, qubits: seq<QubitRef>, q: QubitRef,
               ghost E: seq<(QubitRef, QubitRef)>)
    returns (id: nat, idx': map<QubitRef, nat>, qubits': seq<QubitRef>)
    requires Tracks(dsu, idx, qubits, E)
    modifies dsu
    ensures Tracks(dsu, idx', qubits', E)
    ensures qubits' == if q in qubits then qubits else qubits + [q]
    ensures id < |qubits'| && qubits'[id] == q
  {
    if q in idx {
      id, idx', qubits' := idx[q], idx, qubits;
    } else {
      ghost var L := dsu.Labels();
      id := dsu.Add();
      idx' := idx[q := id];
      qubits' := qubits + [q];
      RegisterFresh(L, qubits, E, q);
    }
  }

  /** `get_id` on each of ts in turn (the QALLOC loop, or a gate's operands). */
  method RegisterAll(dsu: DSU, idx: map<QubitRef, nat>, qubits: seq<QubitRef>, ts: seq<QubitRef>,
                     ghost E: seq<(QubitRef, QubitRef)>)
    returns (ids: seq<nat>, idx': map<QubitRef, nat>, qubits': seq<QubitRef>)
    requires Tracks(dsu, idx, qubits, E)
    modifies dsu
    ensures Tracks(dsu, idx', qubits', E) && qubits' == Register(qubits, ts)
    ensures |ids| == |ts| && forall k :: 0 <= k < |ts| ==> ids[k] < |qubits'| && qubits'[ids[k]] == ts[k]
  {
    ids, idx', qubits' := [], idx, qubits;
    var k := 0;
    while k < |ts|
      invariant k <= |ts| && Tracks(dsu, idx', qubits', E) && qubits' == Register(qubits, ts[..k])
      invariant |ids| == k && forall j :: 0 <= j < k ==> ids[j] < |qubits'| && qubits'[ids[j]] == ts[j]
    {
      RegisterStep(qubits, ts, k);
      ghost var before := qubits';
      var id;
      id, idx', qubits' := GetId(dsu, idx', qubits', ts[k], E);
      IdsStep(ids, id, before, qubits', ts, k);
      ids := ids + [id];
      k := k + 1;
    }
    assert ts[..k] == ts;
  }

  /** The positions found so far stay valid when `qubits` grows by at most one. */
  lemma IdsStep(ids: seq<nat>, id: nat, before: seq<QubitRef>, after: seq<QubitRef>, ts: seq<QubitRef>, k: nat)
    requires k < |ts| && |ids| == k
    requires forall j :: 0 <= j < k ==> ids[j] < |before| && before[ids[j]] == ts[j]
    requires after == before || after == before + [ts[k]]
    requires id < |after| && after[id] == ts[k]
    ensures forall j :: 0 <= j < k + 1 ==> (ids + [id])[j] < |after| && after[(ids + [id])[j]] == ts[j]
  {
  }

  /** The links of a two- or three-operand gate. */
  lemma LinksShape(qs: seq<QubitRef>)
    requires |qs| == 2 || |qs| == 3
    ensures |qs| == 2 ==> Links(Couple(qs)) == [(qs[0], qs[1])]
    ensures |qs| == 3 ==> Links(Couple(qs)) == [(qs[0], qs[1])] + [(qs[0], qs[2])]
  {
  }

  /** CNOT/CZ/SWAP or CCX: register the operands, then `unite(a, b)` and, for
      CCX, `unite(a, c)`. */
  method CoupleStep(dsu: DSU, idx: map<QubitRef, nat>, qubits: seq<QubitRef>, qs: seq<QubitRef>,
                    ghost E: seq<(QubitRef, QubitRef)>)
    returns (idx': map<QubitRef, nat>, qubits': seq<QubitRef>)
    requires Tracks(dsu, idx, qubits, E) && (|qs| == 2 || |qs| == 3)
    modifies dsu
    ensures Tracks(dsu, idx', qubits', E + Links(Couple(qs))) && qubits' == Register(qubits, qs)
  {
    var ids;
    ids, idx', qubits' := RegisterAll(dsu, idx, qubits, qs, E);
    ghost var p0, r0, t0 := dsu.parent, dsu.rank, dsu.top;
    dsu.Unite(ids[0], ids[1]);
    UniteTracks(p0, r0, t0, dsu.parent, dsu.rank, dsu.top, idx', qubits', E, ids[0], ids[1], qs[0], qs[1]);
    CoupleEdges(E, qs);
    if |qs| == 3 {
      ghost var p1, r1, t1 := dsu.parent, dsu.rank, dsu.top;
      dsu.Unite(ids[0], ids[2]);
      UniteTracks(p1, r1, t1, dsu.parent, dsu.rank, dsu.top, idx', qubits', E + [(qs[0], qs[1])],
                  ids[0], ids[2], qs[0], qs[2]);
    }
  }

  /** `unite(a, b)` on the forest's fields: the bookkeeping is kept and the
      link (u, v) between the qubits at a and b is added. */
  lemma UniteTracks(p0: seq<nat>, r0: seq<nat>, t0: nat, p1: seq<nat>, r1: seq<nat>, t1: nat,
                    idx: map<QubitRef, nat>, qubits: seq<QubitRef>, E: seq<(QubitRef, QubitRef)>,
                    a: nat, b: nat, u: QubitRef, v: QubitRef)
    requires TracksAt(p0, r0, t0, idx, qubits, E) && Forest(p1, r1, t1) && |p1| == |p0|
    requires Relabelled(Roots(p0, r0, t0), Roots(p1, r1, t1), a, b)
    requires a < |qubits| && b < |qubits| && qubits[a] == u && qubits[b] == v
    ensures TracksAt(p1, r1, t1, idx, qubits, E + [(u, v)])
  {
    UniteRepresents(Roots(p0, r0, t0), Roots(p1, r1, t1), qubits, E, a, b);
  }

  /** The links of a two- or three-operand gate, appended to E. */
  lemma CoupleEdges(E: seq<(QubitRef, QubitRef)>, qs: seq<QubitRef>)
    requires |qs| == 2 || |qs| == 3
    ensures |qs| == 2 ==> E + Links(Couple(qs)) == E + [(qs[0], qs[1])]
    ensures |qs| == 3 ==> E + Links(Couple(qs)) == E + [(qs[0], qs[1])] + [(qs[0], qs[2])]
  {
    LinksShape(qs);
  }

  /** The analysis state after the first t operations of es, none aborting. */
  ghost predicate Scanned(dsu: DSU, idx: map<QubitRef, nat>, qubits: seq<QubitRef>, es: seq<Effect>, t: nat)
    reads dsu
  {
    t <= |es| && !Aborts(es[..t]) &&
    Tracks(dsu, idx, qubits, AllEdges(es[..t])) && qubits == Registered(es[..t])
  }

  /** One pass of the analysis loop, over operation t whose indices parse. */
  method Absorb(dsu: DSU, idx: map<QubitRef, nat>, qubits: seq<QubitRef>, e: Effect, ghost es: seq<Effect>, ghost t: nat)
    returns (idx': map<QubitRef, nat>, qubits': seq<QubitRef>)
    requires Scanned(dsu, idx, qubits, es, t) && t < |es| && e == es[t]
    requires !e.Fails? && (e.Couple? ==> |e.qs| == 2 || |e.qs| == 3)
    modifies dsu
    ensures Scanned(dsu, idx', qubits', es, t + 1)
  {
    PrefixSnoc(es, t);
    ghost var pre := es[..t];
    Snoc(pre, e);
    NoLinks(AllEdges(pre), e);
    idx', qubits' := idx, qubits;
    if e.Alloc? {
      var ids;
      ids, idx', qubits' := RegisterAll(dsu, idx, qubits, AllocRefs(e.reg, e.count), AllEdges(pre));
    } else if e.Couple? {
      idx', qubits' := CoupleStep(dsu, idx, qubits, e.qs, AllEdges(pre));
    }
  }

  /** QALLOC and skipped operations add no link. */
  lemma NoLinks(E: seq<(QubitRef, QubitRef)>, e: Effect)
    ensures !e.Couple? ==> E + Links(e) == E
  {
  }

  lemma PrefixSnoc<T>(s: seq<T>, t: nat)
    requires t < |s|
    ensures s[..t + 1] == s[..t] + [s[t]] && (t + 1 == |s| ==> s[..t + 1] == s)
  {
  }

  /** A failing `stoul` anywhere aborts the whole list. */
  lemma {:induction false} AbortsFrom(es: seq<Effect>, t: nat, k: nat)
    requires t < k <= |es| && es[t].Fails?
    ensures Aborts(es[..k]) && (k == |es| ==> Aborts(es))
    decreases k
  {
    assert es[..k][..k - 1] == es[..k - 1];
    if k > t + 1 {
      AbortsFrom(es, t, k - 1);
    }
  }

  /** The analysis aborts exactly when some operation's `stoul` throws. */
  lemma AbortsIff(es: seq<Effect>)
    ensures Aborts(es) <==> exists t :: 0 <= t < |es| && es[t].Fails?
  {
    if exists t :: 0 <= t < |es| && es[t].Fails? {
      var t :| 0 <= t < |es| && es[t].Fails?;
      AbortsFrom(es, t, |es|);
    }
    if Aborts(es) {
      AbortsSome(es);
    }
  }

  lemma {:induction false} AbortsSome(es: seq<Effect>)
    requires Aborts(es)
    ensures exists t :: 0 <= t < |es| && es[t].Fails?
  {
    var m := |es| - 1;
    if !es[m].Fails? {
      AbortsSome(es[..m]);
      var t :| 0 <= t < m && es[..m][t].Fails?;
      assert es[t] == es[..m][t];
    }
  }

  /** After the loop, the forest's representatives group the registered
      qubits exactly as the reference partition does. */
  lemma SpecAgrees(es: seq<Effect>, L: seq<nat>)
    requires Represents(L, Registered(es), AllEdges(es))
    ensures Output(Registered(es), L) == PartitionsSpec(es)
  {
    var R, E := Registered(es), AllEdges(es);
    var L' := LinkLabels(R, E);
    forall i, j | 0 <= i < |L| && 0 <= j < |L|
      ensures L[i] == L[j] <==> L'[i] == L'[j]
    {
      LinkLabelsIff(R, E, i, j);
    }
    OutputCongruent(R, L, L');
  }

  /** `analyze_separable_regions(ops)`: None when some `stoul` throws;
      otherwise the connected components of the registered qubits under the
      multi-qubit gates, each in registration order, ordered by their first
      qubit. */
  method AnalyzeSeparableRegions(ops: seq<seq<string>>) returns (r: Option<seq<seq<QubitRef>>>)
    ensures r.None? <==> Aborts(Effects(ops))
    ensures r.Some? ==> r.value == PartitionsSpec(Effects(ops))
  {
    var dsu := new DSU();
    var aborted, idx, qubits := ScanOps(ops, dsu);
    if aborted {
      return None;
    }
    var parts, firstIdx := Collect(dsu, qubits);
    ghost var L := dsu.Labels();
    var out := OrderParts(parts, firstIdx, |qubits|, qubits, L);
    SpecAgrees(Effects(ops), L);
    r := Some(out);
  }

  /** The loop over the operations, on a fresh `dsu`: it stops at the first
      `stoul` that throws; otherwise it has registered every qubit the list
      names and united every multi-qubit gate's operands. */
  method ScanOps(ops: seq<seq<string>>, dsu: DSU) returns (aborted: bool, idx: map<QubitRef, nat>, qubits: seq<QubitRef>)
    requires dsu.Valid() && dsu.parent == []
    modifies dsu
    ensures aborted <==> Aborts(Effects(ops))
    ensures !aborted ==> Tracks(dsu, idx, qubits, AllEdges(Effects(ops))) && qubits == Registered(Effects(ops))
  {
    ghost var es := Effects(ops);
    idx, qubits := map[], [];
    aborted := false;
    var t := 0;
    while t < |ops|
      invariant Scanned(dsu, idx, qubits, es, t)
    {
      var e := Classify(ops[t]);
      if e.Fails? {
        AbortsFrom(es, t, |es|);
        aborted := true;
        return;
      }
      idx, qubits := Absorb(dsu, idx, qubits, e, es, t);
      t := t + 1;
    }
    ScannedAll(dsu, idx, qubits, es, t);
  }

  lemma ScannedAll(dsu: DSU, idx: map<QubitRef, nat>, qubits: seq<QubitRef>, es: seq<Effect>, t: nat)
    requires Scanned(dsu, idx, qubits, es, t) && t == |es|
    ensures !Aborts(es) && Tracks(dsu, idx, qubits, AllEdges(es)) && qubits == Registered(es)
  {
    assert es[..t] == es;
  }

  /** The grouping loop: `parts[find(i)].push_back(qubits[i])`, and the first
      position of each representative in `first_idx`. Path compression keeps
      every representative. */
  method Collect(dsu: DSU, qubits: seq<QubitRef>) returns (parts: map<nat, seq<QubitRef>>, firstIdx: map<nat, nat>)
    requires dsu.Valid() && |dsu.parent| == |qubits|
    modifies dsu
    ensures dsu.Valid() && dsu.Labels() == old(dsu.Labels())
    ensures parts == PartsUpTo(qubits, dsu.Labels(), |qubits|) && firstIdx == FirstsUpTo(dsu.Labels(), |qubits|)
  {
    ghost var L := dsu.Labels();
    parts, firstIdx := map[], map[];
    var i := 0;
    while i < |qubits|
      invariant i <= |qubits| && dsu.Valid() && dsu.Labels() == L && |dsu.parent| == |qubits|
      invariant parts == PartsUpTo(qubits, L, i) && firstIdx == FirstsUpTo(L, i)
    {
      var root := dsu.Find(i);
      PartsStep(qubits, L, i);
      FirstsStep(L, i);
      parts := parts[root := (if root in parts then parts[root] else []) + [qubits[i]]];
      if root !in firstIdx {
        firstIdx := firstIdx[root := i];
      }
      i := i + 1;
    }
  }

  /** The groups keyed by their first position: the `ordered` pairs. */
  function Ordered(parts: map<nat, seq<QubitRef>>, firstIdx: map<nat, nat>): (o: map<nat, seq<QubitRef>>)
    requires forall root :: root in parts ==> root in firstIdx
    requires forall r1, r2 :: r1 in parts && r2 in parts && firstIdx[r1] == firstIdx[r2] ==> r1 == r2
    ensures forall root :: root in parts ==> firstIdx[root] in o && o[firstIdx[root]] == parts[root]
    ensures forall p :: p in o ==> exists root :: root in parts && firstIdx[root] == p
  {
    map root | root in parts :: firstIdx[root] := parts[root]
  }

  /** The ordered pairs, read in increasing first position: what sorting
      them by `first` and dropping the key leaves. */
  method OrderParts(parts: map<nat, seq<QubitRef>>, firstIdx: map<nat, nat>, n: nat,
                    ghost R: seq<QubitRef>, ghost L: seq<nat>)
    returns (out: seq<seq<QubitRef>>)
    requires |R| == |L| == n
    requires parts == PartsUpTo(R, L, n) && firstIdx == FirstsUpTo(L, n)
    ensures out == Output(R, L)
  {
    OrderedKeys(R, L, parts, firstIdx);
    var ordered := Ordered(parts, firstIdx);
    out := [];
    var i := 0;
    while i < n
      invariant i <= n && out == GroupsUpTo(R, L, i)
    {
      GroupsStep(R, L, i);
      OrderedAt(R, L, parts, firstIdx, i);
      if i in ordered {
        out := out + [ordered[i]];
      }
      i := i + 1;
    }
    GroupsAll(R, L);
  }

  /** Every representative has a first position, and distinct ones have
      distinct first positions. */
  lemma OrderedKeys(R: seq<QubitRef>, L: seq<nat>, parts: map<nat, seq<QubitRef>>, firstIdx: map<nat, nat>)
    requires |R| == |L| && parts == PartsUpTo(R, L, |L|) && firstIdx == FirstsUpTo(L, |L|)
    ensures forall root :: root in parts ==> root in firstIdx
    ensures forall r1, r2 :: r1 in parts && r2 in parts && firstIdx[r1] == firstIdx[r2] ==> r1 == r2
  {
    assert L[..|L|] == L;
    forall r1, r2 | r1 in parts && r2 in parts && firstIdx[r1] == firstIdx[r2]
      ensures r1 == r2
    {
      FinalMaps(R, L, r1);
      FinalMaps(R, L, r2);
    }
  }

  /** Position i carries a group exactly when it is the first position of its
      label, and the group is that label's. */
  lemma OrderedAt(R: seq<QubitRef>, L: seq<nat>, parts: map<nat, seq<QubitRef>>, firstIdx: map<nat, nat>, i: nat)
    requires |R| == |L| && i < |L| && parts == PartsUpTo(R, L, |L|) && firstIdx == FirstsUpTo(L, |L|)
    requires forall root :: root in parts ==> root in firstIdx
    requires forall r1, r2 :: r1 in parts && r2 in parts && firstIdx[r1] == firstIdx[r2] ==> r1 == r2
    ensures i in Ordered(parts, firstIdx) <==> L[i] !in L[..i]
    ensures i in Ordered(parts, firstIdx) ==> Ordered(parts, firstIdx)[i] == Gather(R, Members(L, L[i]))
  {
    var o := Ordered(parts, firstIdx);
    FirstIff(L, i);
    FinalMaps(R, L, L[i]);
    if i in o {
      var root :| root in parts && firstIdx[root] == i;
      assert L[..|L|] == L;
      FinalMaps(R, L, root);
    }
  }
}

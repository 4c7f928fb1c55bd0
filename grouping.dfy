/** Grouping a sequence of items by a labelling, in order of first appearance:
    what the last loops of `analyze_separable_regions` (runtime/partitioner.cpp)
    compute once every registered qubit has a representative. Position p of
    the items carries label L[p]; each group collects the items of one label
    in position order, and the groups come in the order of their first
    position. */
module Grouping {

  /** The positions where a label occurs for the first time, in increasing order. */
  function FirstPos(L: seq<nat>): (fp: seq<nat>)
    ensures forall k :: 0 <= k < |fp| ==> fp[k] < |L|
  {
    if |L| == 0 then []
    else
      var m := |L| - 1;
      FirstPos(L[..m]) + (if L[m] in L[..m] then [] else [m])
  }

  /** The positions carrying label v, in increasing order. */
  function Members(L: seq<nat>, v: nat): (ms: seq<nat>)
    ensures forall k :: 0 <= k < |ms| ==> ms[k] < |L|
  {
    if |L| == 0 then []
    else
      var m := |L| - 1;
      Members(L[..m], v) + (if L[m] == v then [m] else [])
  }

  /** The items at the given positions. */
  function Gather<T>(R: seq<T>, ps: seq<nat>): (r: seq<T>)
    requires forall k :: 0 <= k < |ps| ==> ps[k] < |R|
    ensures |r| == |ps| && forall k :: 0 <= k < |ps| ==> r[k] == R[ps[k]]
  {
    seq(|ps|, k requires 0 <= k < |ps| => R[ps[k]])
  }

  /** One group per label, in order of first appearance. */
  function Output<T>(R: seq<T>, L: seq<nat>): (out: seq<seq<T>>)
    requires |R| == |L|
    ensures |out| == |FirstPos(L)|
  {
    var fp := FirstPos(L);
    seq(|fp|, k requires 0 <= k < |fp| => Gather(R, Members(L, L[fp[k]])))
  }

  predicate Distinct<T(==)>(R: seq<T>) {
    forall i, j :: 0 <= i < j < |R| ==> R[i] != R[j]
  }

  predicate Increasing(ps: seq<nat>) {
    forall i, j :: 0 <= i < j < |ps| ==> ps[i] < ps[j]
  }

  // ---------------------------------------------------------------------------
  // What FirstPos and Members enumerate

  lemma {:induction false} MembersIff(L: seq<nat>, v: nat)
    ensures Increasing(Members(L, v))
    ensures forall p :: p in Members(L, v) <==> 0 <= p < |L| && L[p] == v
  {
    if |L| > 0 {
      var m := |L| - 1;
      MembersIff(L[..m], v);
      assert forall p :: 0 <= p < m ==> L[..m][p] == L[p];
    }
  }

  lemma {:induction false} FirstPosIff(L: seq<nat>)
    ensures Increasing(FirstPos(L))
    ensures forall p :: p in FirstPos(L) <==> 0 <= p < |L| && L[p] !in L[..p]
  {
    FirstPosIncreasing(L);
    forall p
      ensures p in FirstPos(L) <==> 0 <= p < |L| && L[p] !in L[..p]
    {
      if p >= 0 {
        FirstPosAt(L, p);
      }
    }
  }

  lemma {:induction false} FirstPosIncreasing(L: seq<nat>)
    ensures Increasing(FirstPos(L))
  {
    if |L| > 0 {
      var m := |L| - 1;
      FirstPosIncreasing(L[..m]);
    }
  }

  lemma {:induction false} FirstPosAt(L: seq<nat>, p: nat)
    ensures p in FirstPos(L) <==> p < |L| && L[p] !in L[..p]
  {
    if |L| > 0 {
      var m := |L| - 1;
      var fp0, extra := FirstPos(L[..m]), if L[m] in L[..m] then [] else [m];
      assert FirstPos(L) == fp0 + extra;
      if p < m {
        FirstPosAt(L[..m], p);
        assert L[..m][..p] == L[..p];
        assert L[..m][p] == L[p];
        assert p !in extra;
      } else if p == m {
        assert p !in fp0;
      } else {
        assert p !in fp0;
      }
    }
  }

  /** The first position holding v. */
  function IndexOf<T(==)>(L: seq<T>, v: T): (q: nat)
    requires v in L
    ensures q < |L| && L[q] == v && v !in L[..q]
  {
    if L[0] == v then 0
    else
      assert L == [L[0]] + L[1..];
      var q := 1 + IndexOf(L[1..], v);
      assert L[..q] == [L[0]] + L[1..][..q - 1];
      q
  }

  /** Every label is introduced by a first position at or before each of its
      occurrences. */
  lemma FirstPosCovers(L: seq<nat>, p: nat)
    requires p < |L|
    ensures exists k :: 0 <= k < |FirstPos(L)| && L[FirstPos(L)[k]] == L[p] && FirstPos(L)[k] <= p
  {
    FirstPosIff(L);
    assert L[p] in L;
    var q := IndexOf(L, L[p]);
    assert q <= p;
    assert q in FirstPos(L);
    var k :| 0 <= k < |FirstPos(L)| && FirstPos(L)[k] == q;
  }

  /** The groups' labels are pairwise different. */
  lemma FirstLabelsDistinct(L: seq<nat>, k1: nat, k2: nat)
    requires k1 < k2 < |FirstPos(L)|
    ensures L[FirstPos(L)[k1]] != L[FirstPos(L)[k2]]
  {
    FirstPosIff(L);
    var p1, p2 := FirstPos(L)[k1], FirstPos(L)[k2];
    assert p2 in FirstPos(L);
    assert L[..p2][p1] == L[p1];
  }

  // ---------------------------------------------------------------------------
  // The groups

  /** Item p (of distinct items) lies in group k exactly when p carries the
      label of that group. */
  lemma OutputMember<T>(R: seq<T>, L: seq<nat>, p: nat, k: nat)
    requires |R| == |L| && Distinct(R) && p < |R| && k < |FirstPos(L)|
    ensures R[p] in Output(R, L)[k] <==> L[p] == L[FirstPos(L)[k]]
  {
    var v := L[FirstPos(L)[k]];
    MembersIff(L, v);
    var g := Output(R, L)[k];
    assert g == Gather(R, Members(L, v));
    if L[p] == v {
      assert p in Members(L, v);
      var i :| 0 <= i < |Members(L, v)| && Members(L, v)[i] == p;
      assert g[i] == R[p];
    }
    if R[p] in g {
      var i :| 0 <= i < |g| && g[i] == R[p];
      assert Members(L, v)[i] in Members(L, v);
    }
  }

  /** Every item lies in exactly one group. */
  lemma OutputExactlyOnce<T>(R: seq<T>, L: seq<nat>, p: nat)
    requires |R| == |L| && Distinct(R) && p < |R|
    ensures exists k :: 0 <= k < |Output(R, L)| && R[p] in Output(R, L)[k]
    ensures forall k1, k2 :: (0 <= k1 < |Output(R, L)| && 0 <= k2 < |Output(R, L)| &&
                              R[p] in Output(R, L)[k1] && R[p] in Output(R, L)[k2]) ==> k1 == k2
  {
    FirstPosCovers(L, p);
    var k :| 0 <= k < |FirstPos(L)| && L[FirstPos(L)[k]] == L[p] && FirstPos(L)[k] <= p;
    OutputMember(R, L, p, k);
    forall k1, k2 | 0 <= k1 < |Output(R, L)| && 0 <= k2 < |Output(R, L)| &&
                    R[p] in Output(R, L)[k1] && R[p] in Output(R, L)[k2]
      ensures k1 == k2
    {
      OutputMember(R, L, p, k1);
      OutputMember(R, L, p, k2);
      if k1 < k2 {
        FirstLabelsDistinct(L, k1, k2);
      } else if k2 < k1 {
        FirstLabelsDistinct(L, k2, k1);
      }
    }
  }

  /** Two items share a group exactly when they carry the same label. */
  lemma OutputTogether<T>(R: seq<T>, L: seq<nat>, p: nat, q: nat, k1: nat, k2: nat)
    requires |R| == |L| && Distinct(R) && p < |R| && q < |R|
    requires k1 < |Output(R, L)| && k2 < |Output(R, L)|
    requires R[p] in Output(R, L)[k1] && R[q] in Output(R, L)[k2]
    ensures k1 == k2 <==> L[p] == L[q]
  {
    OutputMember(R, L, p, k1);
    OutputMember(R, L, q, k2);
    if k1 < k2 {
      FirstLabelsDistinct(L, k1, k2);
    } else if k2 < k1 {
      FirstLabelsDistinct(L, k2, k1);
    }
  }

  /** Groups are non-empty and hold items only; group k starts with the item
      at the k-th first position; inside a group and across the groups' first
      items, positions increase. */
  lemma OutputOrdered<T>(R: seq<T>, L: seq<nat>, k: nat)
    requires |R| == |L| && k < |Output(R, L)|
    ensures Output(R, L)[k] != [] && Output(R, L)[k][0] == R[FirstPos(L)[k]]
    ensures Output(R, L)[k] == Gather(R, Members(L, L[FirstPos(L)[k]]))
    ensures Increasing(Members(L, L[FirstPos(L)[k]])) && Increasing(FirstPos(L))
    ensures forall x :: x in Output(R, L)[k] ==> x in R
  {
    var f := FirstPos(L)[k];
    var v := L[f];
    FirstPosIff(L);
    MembersIff(L, v);
    var ms := Members(L, v);
    assert f in ms;
    assert f in FirstPos(L);
    var i :| 0 <= i < |ms| && ms[i] == f;
    assert ms[0] in ms;
    assert L[..f] == L[..f];
    assert ms[0] == f;
  }

  /** For distinct items, the first position of an item is its only one. */
  lemma IndexOfDistinct<T>(R: seq<T>, p: nat)
    requires Distinct(R) && p < |R|
    ensures IndexOf(R, R[p]) == p
  {
    var i := IndexOf(R, R[p]);
    assert R[i] == R[p];
  }

  // ---------------------------------------------------------------------------
  // The same, stated about the items rather than their positions

  /** Every item lies in exactly one group, and groups hold items only. */
  lemma OutputCover<T>(R: seq<T>, L: seq<nat>, x: T)
    requires |R| == |L| && Distinct(R)
    ensures x in R ==> exists k :: 0 <= k < |Output(R, L)| && x in Output(R, L)[k]
    ensures forall k1, k2 :: (0 <= k1 < |Output(R, L)| && 0 <= k2 < |Output(R, L)| &&
                              x in Output(R, L)[k1] && x in Output(R, L)[k2]) ==> k1 == k2
    ensures forall k :: 0 <= k < |Output(R, L)| && x in Output(R, L)[k] ==> x in R
  {
    forall k | 0 <= k < |Output(R, L)|
      ensures x in Output(R, L)[k] ==> x in R
    {
      OutputOrdered(R, L, k);
    }
    if x in R {
      OutputExactlyOnce(R, L, IndexOf(R, x));
    }
  }

  /** Two grouped items share a group exactly when their positions share a label. */
  lemma OutputTogetherItems<T>(R: seq<T>, L: seq<nat>, x: T, y: T, k1: nat, k2: nat) returns (p: nat, q: nat)
    requires |R| == |L| && Distinct(R)
    requires k1 < |Output(R, L)| && k2 < |Output(R, L)|
    requires x in Output(R, L)[k1] && y in Output(R, L)[k2]
    ensures p < |R| && q < |R| && R[p] == x && R[q] == y
    ensures k1 == k2 <==> L[p] == L[q]
  {
    OutputOrdered(R, L, k1);
    OutputOrdered(R, L, k2);
    p, q := IndexOf(R, x), IndexOf(R, y);
    OutputTogether(R, L, p, q, k1, k2);
  }

  /** Groups are non-empty, come in the order of their first items, and list
      their items in the order of R. */
  lemma OutputInOrder<T>(R: seq<T>, L: seq<nat>)
    requires |R| == |L| && Distinct(R)
    ensures forall k :: 0 <= k < |Output(R, L)| ==> Output(R, L)[k] != []
    ensures forall k1, k2 :: 0 <= k1 < k2 < |Output(R, L)| ==>
              IndexOf(R, Output(R, L)[k1][0]) < IndexOf(R, Output(R, L)[k2][0])
    ensures forall k, i, j :: 0 <= k < |Output(R, L)| && 0 <= i < j < |Output(R, L)[k]| ==>
              IndexOf(R, Output(R, L)[k][i]) < IndexOf(R, Output(R, L)[k][j])
  {
    var out := Output(R, L);
    var fp := FirstPos(L);
    forall k | 0 <= k < |out|
      ensures out[k] != [] && IndexOf(R, out[k][0]) == fp[k]
      ensures forall i, j :: 0 <= i < j < |out[k]| ==> IndexOf(R, out[k][i]) < IndexOf(R, out[k][j])
    {
      OutputOrdered(R, L, k);
      var ms := Members(L, L[fp[k]]);
      forall i | 0 <= i < |out[k]|
        ensures IndexOf(R, out[k][i]) == ms[i]
      {
        IndexOfDistinct(R, ms[i]);
      }
    }
    FirstPosIncreasing(L);
  }

  /** Two items under different labels form two groups. */
  lemma OutputPair<T>(x: T, y: T)
    ensures Output([x, y], [0, 1]) == [[x], [y]]
  {
    LabelsPair();
    var out := Output([x, y], [0, 1]);
    GatherOne([x, y], 0);
    GatherOne([x, y], 1);
    PairEq(out, [x], [y]);
  }

  lemma GatherOne<T>(R: seq<T>, p: nat)
    requires p < |R|
    ensures Gather(R, [p]) == [R[p]]
  {
  }

  lemma PairEq<T>(out: seq<T>, a: T, b: T)
    requires |out| == 2 && out[0] == a && out[1] == b
    ensures out == [a, b]
  {
  }

  lemma LabelsPair()
    ensures FirstPos([0, 1]) == [0, 1]
    ensures Members([0, 1], 0) == [0] && Members([0, 1], 1) == [1]
  {
    var L: seq<nat> := [0, 1];
    assert L[..1] == [0] && [0][..0] == [];
    assert FirstPos([0]) == [0];
    assert Members([0], 0) == [0] && Members([0], 1) == [];
  }

  // ---------------------------------------------------------------------------
  // Only which positions share a label matters

  /** Two labellings that agree on which positions share a label. */
  ghost predicate Congruent(L: seq<nat>, L': seq<nat>) {
    |L| == |L'| && forall i, j :: 0 <= i < |L| && 0 <= j < |L| ==> (L[i] == L[j] <==> L'[i] == L'[j])
  }

  lemma {:induction false} FirstPosCongruent(L: seq<nat>, L': seq<nat>)
    requires Congruent(L, L')
    ensures FirstPos(L) == FirstPos(L')
  {
    if |L| > 0 {
      var m := |L| - 1;
      assert Congruent(L[..m], L'[..m]) by {
        assert forall i :: 0 <= i < m ==> L[..m][i] == L[i] && L'[..m][i] == L'[i];
      }
      FirstPosCongruent(L[..m], L'[..m]);
      assert L[m] in L[..m] <==> L'[m] in L'[..m] by {
        if L[m] in L[..m] {
          var i :| 0 <= i < m && L[..m][i] == L[m];
          assert L'[..m][i] == L'[m];
        }
        if L'[m] in L'[..m] {
          var i :| 0 <= i < m && L'[..m][i] == L'[m];
          assert L[..m][i] == L[m];
        }
      }
    }
  }

  lemma {:induction false} MembersCongruent(L: seq<nat>, L': seq<nat>, v: nat, v': nat)
    requires |L| == |L'| && forall p :: 0 <= p < |L| ==> (L[p] == v <==> L'[p] == v')
    ensures Members(L, v) == Members(L', v')
  {
    if |L| > 0 {
      var m := |L| - 1;
      assert forall p :: 0 <= p < m ==> L[..m][p] == L[p] && L'[..m][p] == L'[p];
      MembersCongruent(L[..m], L'[..m], v, v');
    }
  }

  /** Congruent labellings group the items identically. */
  lemma OutputCongruent<T>(R: seq<T>, L: seq<nat>, L': seq<nat>)
    requires |R| == |L| && Congruent(L, L')
    ensures Output(R, L) == Output(R, L')
  {
    FirstPosCongruent(L, L');
    var fp := FirstPos(L);
    forall k | 0 <= k < |fp|
      ensures Output(R, L)[k] == Output(R, L')[k]
    {
      MembersCongruent(L, L', L[fp[k]], L'[fp[k]]);
    }
  }

  // ---------------------------------------------------------------------------
  // The loops that build the groups: `parts[root].push_back(qubits[i])` and
  // `first_idx[root] = i` for each position i in turn, then the groups read
  // in order of their first positions

  /** The groups after the positions below i: each label seen so far maps to
      its items so far. */
  function PartsUpTo<T>(R: seq<T>, L: seq<nat>, i: nat): (m: map<nat, seq<T>>)
    requires |R| == |L| && i <= |L|
    ensures forall v :: v in m <==> v in L[..i]
  {
    map v | v in L[..i] :: Gather(R, Members(L[..i], v))
  }

  /** The first position of each label seen below i. */
  function FirstsUpTo(L: seq<nat>, i: nat): (m: map<nat, nat>)
    requires i <= |L|
    ensures forall v :: v in m <==> v in L[..i]
  {
    map v | v in L[..i] :: IndexOf(L[..i], v)
  }

  /** The groups whose first position is below i, in that order. */
  function GroupsUpTo<T>(R: seq<T>, L: seq<nat>, i: nat): (g: seq<seq<T>>)
    requires |R| == |L| && i <= |L|
    ensures |g| == |FirstPos(L[..i])|
  {
    var fp := FirstPos(L[..i]);
    seq(|fp|, k requires 0 <= k < |fp| => Gather(R, Members(L, L[..i][fp[k]])))
  }

  /** One more position of the labelling, as the definitions unfold it. */
  lemma PrefixStep(L: seq<nat>, i: nat, v: nat)
    requires i < |L|
    ensures L[..i + 1][..i] == L[..i] && L[..i + 1][i] == L[i]
    ensures Members(L[..i + 1], v) == Members(L[..i], v) + (if L[i] == v then [i] else [])
    ensures FirstPos(L[..i + 1]) == FirstPos(L[..i]) + (if L[i] in L[..i] then [] else [i])
  {
    assert L[..i + 1][..i] == L[..i];
  }

  lemma GatherSnoc<T>(R: seq<T>, ps: seq<nat>, p: nat)
    requires p < |R| && forall k :: 0 <= k < |ps| ==> ps[k] < |R|
    ensures Gather(R, ps + [p]) == Gather(R, ps) + [R[p]]
  {
  }

  /** `parts[root].push_back(qubits[i])`: the group of L[i] grows by R[i]; a
      label not seen before starts from an empty group. */
  lemma PartsStep<T>(R: seq<T>, L: seq<nat>, i: nat)
    requires |R| == |L| && i < |L|
    ensures var m := PartsUpTo(R, L, i);
            PartsUpTo(R, L, i + 1) == m[L[i] := (if L[i] in m then m[L[i]] else []) + [R[i]]]
  {
    var m, m' := PartsUpTo(R, L, i), PartsUpTo(R, L, i + 1);
    var n := m[L[i] := (if L[i] in m then m[L[i]] else []) + [R[i]]];
    PrefixKeys(L, i);
    forall v | v in L[..i + 1]
      ensures m'[v] == n[v]
    {
      PartsStepAt(R, L, i, v);
    }
  }

  /** PartsStep at one label. */
  lemma PartsStepAt<T>(R: seq<T>, L: seq<nat>, i: nat, v: nat)
    requires |R| == |L| && i < |L| && (v in L[..i] || v == L[i])
    ensures var m := PartsUpTo(R, L, i);
            PartsUpTo(R, L, i + 1)[v] ==
            (if v == L[i] then (if v in m then m[v] else []) + [R[i]] else m[v])
  {
    PrefixStep(L, i, v);
    GatherSnoc(R, Members(L[..i], v), i);
    MembersEmpty(L[..i], v);
  }

  /** A label that does not occur has no members. */
  lemma MembersEmpty(L: seq<nat>, v: nat)
    ensures v !in L ==> Members(L, v) == []
  {
    MembersIff(L, v);
    assert Members(L, v) != [] ==> L[Members(L, v)[0]] == v;
  }

  /** The labels seen below i + 1 are those below i and L[i]. */
  lemma PrefixKeys(L: seq<nat>, i: nat)
    requires i < |L|
    ensures forall v :: v in L[..i + 1] <==> v in L[..i] || v == L[i]
  {
    assert L[..i + 1] == L[..i] + [L[i]];
  }

  /** IndexOf is the only position meeting its contract. */
  lemma IndexOfUnique<T>(L: seq<T>, v: T, q: nat)
    requires q < |L| && L[q] == v && v !in L[..q]
    ensures IndexOf(L, v) == q
  {
    var r := IndexOf(L, v);
    assert forall p :: 0 <= p < q ==> L[p] == L[..q][p];
    assert forall p :: 0 <= p < r ==> L[p] == L[..r][p];
  }

  /** `if (!first_idx.count(root)) first_idx[root] = i;` */
  lemma FirstsStep(L: seq<nat>, i: nat)
    requires i < |L|
    ensures var m := FirstsUpTo(L, i);
            FirstsUpTo(L, i + 1) == if L[i] in m then m else m[L[i] := i]
  {
    var m, m' := FirstsUpTo(L, i), FirstsUpTo(L, i + 1);
    var n := if L[i] in m then m else m[L[i] := i];
    PrefixKeys(L, i);
    forall v | v in L[..i + 1]
      ensures m'[v] == n[v]
    {
      FirstsStepAt(L, i, v);
    }
  }

  /** FirstsStep at one label. */
  lemma FirstsStepAt(L: seq<nat>, i: nat, v: nat)
    requires i < |L| && (v in L[..i] || v == L[i])
    ensures IndexOf(L[..i + 1], v) == if v in L[..i] then IndexOf(L[..i], v) else i
  {
    PrefixStep(L, i, v);
    if v in L[..i] {
      OldFirst(L, i, v);
    } else {
      IndexOfUnique(L[..i + 1], v, i);
    }
  }

  /** A label seen below i keeps its first position when L[i] is added. */
  lemma OldFirst(L: seq<nat>, i: nat, v: nat)
    requires i < |L| && v in L[..i]
    ensures IndexOf(L[..i + 1], v) == IndexOf(L[..i], v)
  {
    var q := IndexOf(L[..i], v);
    assert L[..i + 1][..q] == L[..i][..q];
    assert L[..i + 1][q] == v;
    IndexOfUnique(L[..i + 1], v, q);
  }

  /** After the last position the maps hold every label. */
  lemma FinalMaps<T>(R: seq<T>, L: seq<nat>, v: nat)
    requires |R| == |L| && v in L
    ensures v in PartsUpTo(R, L, |L|) && PartsUpTo(R, L, |L|)[v] == Gather(R, Members(L, v))
    ensures v in FirstsUpTo(L, |L|) && FirstsUpTo(L, |L|)[v] == IndexOf(L, v)
  {
    assert L[..|L|] == L;
  }

  /** A position is the first of its label exactly when IndexOf says so. */
  lemma FirstIff(L: seq<nat>, i: nat)
    requires i < |L|
    ensures L[i] in L && (IndexOf(L, L[i]) == i <==> L[i] !in L[..i])
  {
    var q := IndexOf(L, L[i]);
    if L[i] !in L[..i] {
      IndexOfUnique(L, L[i], i);
    }
    if q == i {
      assert L[i] !in L[..q];
    }
  }

  /** The ordering scan: position i adds the group of L[i] when i is its
      first position. */
  lemma GroupsStep<T>(R: seq<T>, L: seq<nat>, i: nat)
    requires |R| == |L| && i < |L|
    ensures GroupsUpTo(R, L, i + 1) ==
            GroupsUpTo(R, L, i) + (if L[i] in L[..i] then [] else [Gather(R, Members(L, L[i]))])
  {
    PrefixStep(L, i, 0);
    var fp, fp' := FirstPos(L[..i]), FirstPos(L[..i + 1]);
    var g, g' := GroupsUpTo(R, L, i), GroupsUpTo(R, L, i + 1);
    FirstPosInPrefix(L, i);
    forall k | 0 <= k < |fp|
      ensures g'[k] == g[k]
    {
      assert fp'[k] == fp[k];
      assert L[..i + 1][fp[k]] == L[..i][fp[k]];
    }
  }

  /** The first positions of a prefix lie inside it. */
  lemma FirstPosInPrefix(L: seq<nat>, i: nat)
    requires i <= |L|
    ensures forall k :: 0 <= k < |FirstPos(L[..i])| ==> FirstPos(L[..i])[k] < i
  {
  }

  /** Scanning every position gives the output. */
  lemma GroupsAll<T>(R: seq<T>, L: seq<nat>)
    requires |R| == |L|
    ensures GroupsUpTo(R, L, |L|) == Output(R, L)
  {
    assert L[..|L|] == L;
  }

  // ---------------------------------------------------------------------------
  // Sizes: every item lies in exactly one group, so the group sizes add up to
  // the number of items

  /** The number of items in all groups together. */
  function TotalSize<T>(gs: seq<seq<T>>): nat {
    if |gs| == 0 then 0 else TotalSize(gs[..|gs| - 1]) + |gs[|gs| - 1]|
  }

  /** The member counts of the labels at positions fp, added up. */
  function LabelSizes(L: seq<nat>, fp: seq<nat>): nat
    requires forall k :: 0 <= k < |fp| ==> fp[k] < |L|
  {
    if |fp| == 0 then 0
    else LabelSizes(L, fp[..|fp| - 1]) + |Members(L, L[fp[|fp| - 1]])|
  }

  /** The number of positions in fp whose label is v. */
  function LabelCount(L: seq<nat>, fp: seq<nat>, v: nat): nat
    requires forall k :: 0 <= k < |fp| ==> fp[k] < |L|
  {
    if |fp| == 0 then 0
    else LabelCount(L, fp[..|fp| - 1], v) + (if L[fp[|fp| - 1]] == v then 1 else 0)
  }

  /** The last position, labelled v, adds one member to each group of label v. */
  lemma {:induction false} LabelSizesSnoc(L: seq<nat>, fp: seq<nat>)
    requires |L| > 0 && forall k :: 0 <= k < |fp| ==> fp[k] < |L| - 1
    ensures LabelSizes(L, fp) == LabelSizes(L[..|L| - 1], fp) + LabelCount(L[..|L| - 1], fp, L[|L| - 1])
  {
    if |fp| > 0 {
      var n := |fp| - 1;
      LabelSizesSnoc(L, fp[..n]);
      assert L[..|L| - 1][fp[n]] == L[fp[n]];
    }
  }

  /** Among positions of pairwise different labels, a label occurs at most once. */
  lemma {:induction false} LabelCountDistinct(L: seq<nat>, fp: seq<nat>, v: nat)
    requires forall k :: 0 <= k < |fp| ==> fp[k] < |L|
    requires forall i, j :: 0 <= i < j < |fp| ==> L[fp[i]] != L[fp[j]]
    ensures LabelCount(L, fp, v) == if exists k :: 0 <= k < |fp| && L[fp[k]] == v then 1 else 0
  {
    if |fp| > 0 {
      var n := |fp| - 1;
      var fp0 := fp[..n];
      LabelCountDistinct(L, fp0, v);
      assert forall k :: 0 <= k < n ==> fp0[k] == fp[k];
      if L[fp[n]] == v {
        assert !exists k :: 0 <= k < n && L[fp0[k]] == v;
      }
    }
  }

  /** Every label of L is the label of exactly one group. */
  lemma FirstLabelsOnce(L: seq<nat>, v: nat)
    ensures LabelCount(L, FirstPos(L), v) == if v in L then 1 else 0
  {
    var fp := FirstPos(L);
    forall i, j | 0 <= i < j < |fp|
      ensures L[fp[i]] != L[fp[j]]
    {
      FirstLabelsDistinct(L, i, j);
    }
    LabelCountDistinct(L, fp, v);
    if v in L {
      var p :| 0 <= p < |L| && L[p] == v;
      FirstPosCovers(L, p);
    }
  }

  /** The groups together hold every position exactly once. */
  lemma {:induction false} LabelSizesAll(L: seq<nat>)
    ensures LabelSizes(L, FirstPos(L)) == |L|
  {
    if |L| > 0 {
      var m := |L| - 1;
      var L0, v := L[..m], L[m];
      var fp0 := FirstPos(L0);
      LabelSizesAll(L0);
      LabelSizesSnoc(L, fp0);
      FirstLabelsOnce(L0, v);
      assert LabelSizes(L, fp0) == m + (if v in L0 then 1 else 0);
      if v in L0 {
        assert FirstPos(L) == fp0 + [];
        assert fp0 + [] == fp0;
      } else {
        var fp := fp0 + [m];
        assert FirstPos(L) == fp;
        assert fp[..|fp0|] == fp0;
        MembersEmpty(L0, v);
        assert Members(L, v) == [m];
        assert LabelSizes(L, fp) == LabelSizes(L, fp0) + |Members(L, v)|;
      }
    }
  }

  lemma {:induction false} OutputSizes<T>(R: seq<T>, L: seq<nat>, n: nat)
    requires |R| == |L| && n <= |FirstPos(L)|
    ensures TotalSize(Output(R, L)[..n]) == LabelSizes(L, FirstPos(L)[..n])
  {
    if n > 0 {
      OutputSizes(R, L, n - 1);
      var out, fp := Output(R, L), FirstPos(L);
      assert out[..n][..n - 1] == out[..n - 1];
      assert fp[..n][..n - 1] == fp[..n - 1];
    }
  }

  /** The group sizes add up to the number of items. */
  lemma OutputTotal<T>(R: seq<T>, L: seq<nat>)
    requires |R| == |L|
    ensures TotalSize(Output(R, L)) == |R|
  {
    var out, fp := Output(R, L), FirstPos(L);
    OutputSizes(R, L, |fp|);
    assert out[..|fp|] == out;
    assert fp[..|fp|] == fp;
    LabelSizesAll(L);
  }
}

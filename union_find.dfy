/** The disjoint-set forest `DSU` of runtime/partitioner.cpp: `parent` links
    each element towards the representative of its set, `find` compresses the
    path it walks, and `unite` hangs one representative under the other.
    The ranks are ghost: they only witness that following `parent` ends. */
module UnionFind {

  /** Every link stays inside the forest and climbs to a strictly higher rank,
      so every walk along `parent` reaches a root. */
  ghost predicate Forest(parent: seq<nat>, rank: seq<nat>, top: nat) {
    |rank| == |parent| &&
    (forall i :: 0 <= i < |parent| ==> parent[i] < |parent| && rank[i] <= top) &&
    (forall i :: 0 <= i < |parent| && parent[i] != i ==> rank[i] < rank[parent[i]])
  }

  /** The representative of x: where the walk along `parent` stops. */
  ghost function RootOf(parent: seq<nat>, rank: seq<nat>, top: nat, x: nat): (r: nat)
    requires Forest(parent, rank, top) && x < |parent|
    ensures r < |parent| && parent[r] == r
    decreases top - rank[x]
  {
    if parent[x] == x then x else RootOf(parent, rank, top, parent[x])
  }

  /** A representative ranks at least as high as the members below it. */
  lemma {:induction false} RootRank(parent: seq<nat>, rank: seq<nat>, top: nat, x: nat)
    requires Forest(parent, rank, top) && x < |parent|
    ensures rank[x] <= rank[RootOf(parent, rank, top, x)]
    ensures parent[x] != x ==> rank[x] < rank[RootOf(parent, rank, top, x)]
    decreases top - rank[x]
  {
    if parent[x] != x {
      RootRank(parent, rank, top, parent[x]);
    }
  }

  /** `add`: a new singleton set leaves every old representative in place. */
  lemma {:induction false} RootAdd(parent: seq<nat>, rank: seq<nat>, top: nat, y: nat)
    requires Forest(parent, rank, top) && y < |parent|
    ensures Forest(parent + [|parent|], rank + [0], top)
    ensures RootOf(parent + [|parent|], rank + [0], top, y) == RootOf(parent, rank, top, y)
    decreases top - rank[y]
  {
    var p, r := parent + [|parent|], rank + [0];
    assert forall i :: 0 <= i < |parent| ==> p[i] == parent[i] && r[i] == rank[i];
    if parent[y] != y {
      RootAdd(parent, rank, top, parent[y]);
    }
  }

  /** The whole effect of `add` on the forest. */
  lemma AddKeeps(parent: seq<nat>, rank: seq<nat>, top: nat)
    requires Forest(parent, rank, top)
    ensures Forest(parent + [|parent|], rank + [0], top)
    ensures RootOf(parent + [|parent|], rank + [0], top, |parent|) == |parent|
    ensures forall y :: 0 <= y < |parent| ==>
              RootOf(parent + [|parent|], rank + [0], top, y) == RootOf(parent, rank, top, y)
  {
    var id := |parent|;
    forall y | 0 <= y < id
      ensures RootOf(parent + [id], rank + [0], top, y) == RootOf(parent, rank, top, y)
    {
      RootAdd(parent, rank, top, y);
    }
    if id == 0 {
      assert Forest([0], [0], top);
    } else {
      RootAdd(parent, rank, top, 0);
    }
  }

  /** The forest after `parent[b] = a` for two different roots a and b, with
      the ghost ranks raised so that a stays above b. */
  ghost predicate United(parent: seq<nat>, rank: seq<nat>, top: nat, a: nat, b: nat,
                         parent': seq<nat>, rank': seq<nat>, top': nat) {
    |rank| == |parent| && a < |parent| && b < |parent| && a != b &&
    parent' == parent[b := a] &&
    rank' == rank[a := if rank[a] > rank[b] then rank[a] else rank[b] + 1] &&
    top' == (if top > rank[b] + 1 then top else rank[b] + 1)
  }

  lemma UnitedForest(parent: seq<nat>, rank: seq<nat>, top: nat, a: nat, b: nat,
                     parent': seq<nat>, rank': seq<nat>, top': nat)
    requires United(parent, rank, top, a, b, parent', rank', top')
    requires Forest(parent, rank, top) && parent[a] == a && parent[b] == b
    ensures Forest(parent', rank', top')
  {
  }

  /** `unite`: the members of b's set now reach a; every other element keeps
      its representative. */
  lemma {:induction false} RootUnite(parent: seq<nat>, rank: seq<nat>, top: nat, a: nat, b: nat,
                                     parent': seq<nat>, rank': seq<nat>, top': nat, y: nat)
    requires United(parent, rank, top, a, b, parent', rank', top')
    requires Forest(parent, rank, top) && parent[a] == a && parent[b] == b && Forest(parent', rank', top')
    requires y < |parent|
    ensures RootOf(parent', rank', top', y) ==
            if RootOf(parent, rank, top, y) == b then a else RootOf(parent, rank, top, y)
    decreases top - rank[y]
  {
    if parent[y] != y {
      RootUnite(parent, rank, top, a, b, parent', rank', top', parent[y]);
    } else if y == b {
      assert parent'[b] == a && parent'[a] == a;
    }
  }

  /** Path compression: pointing x straight at its representative changes no
      representative. */
  lemma CompressForest(parent: seq<nat>, rank: seq<nat>, top: nat, x: nat)
    requires Forest(parent, rank, top) && x < |parent|
    ensures Forest(parent[x := RootOf(parent, rank, top, x)], rank, top)
  {
    RootRank(parent, rank, top, x);
  }

  lemma {:induction false} RootCompress(parent: seq<nat>, rank: seq<nat>, top: nat, x: nat, y: nat)
    requires Forest(parent, rank, top) && x < |parent| && y < |parent|
    requires Forest(parent[x := RootOf(parent, rank, top, x)], rank, top)
    ensures RootOf(parent[x := RootOf(parent, rank, top, x)], rank, top, y) == RootOf(parent, rank, top, y)
    decreases top - rank[y]
  {
    var root := RootOf(parent, rank, top, x);
    var p := parent[x := root];
    if y == x {
      if parent[x] != x {
        assert p[root] == root;
      }
    } else if parent[y] != y {
      RootCompress(parent, rank, top, x, parent[y]);
    }
  }

  /** Two forests over the same elements with the same representatives. */
  ghost predicate SameRoots(parent: seq<nat>, rank: seq<nat>, top: nat,
                            parent': seq<nat>, rank': seq<nat>, top': nat) {
    Forest(parent, rank, top) && Forest(parent', rank', top') && |parent'| == |parent| &&
    forall y :: 0 <= y < |parent| ==> RootOf(parent', rank', top', y) == RootOf(parent, rank, top, y)
  }

  /** b's set merged into a's: what `unite` promises. */
  ghost predicate Merged(parent: seq<nat>, rank: seq<nat>, top: nat,
                         parent': seq<nat>, rank': seq<nat>, top': nat, a: nat, b: nat) {
    Forest(parent, rank, top) && Forest(parent', rank', top') && |parent'| == |parent| &&
    a < |parent| && b < |parent| &&
    forall y :: 0 <= y < |parent| ==>
      RootOf(parent', rank', top', y) ==
      if RootOf(parent, rank, top, y) == RootOf(parent, rank, top, b)
      then RootOf(parent, rank, top, a) else RootOf(parent, rank, top, y)
  }

  lemma CompressSame(parent: seq<nat>, rank: seq<nat>, top: nat, x: nat)
    requires Forest(parent, rank, top) && x < |parent|
    ensures SameRoots(parent, rank, top, parent[x := RootOf(parent, rank, top, x)], rank, top)
  {
    CompressForest(parent, rank, top, x);
    forall y | 0 <= y < |parent|
      ensures RootOf(parent[x := RootOf(parent, rank, top, x)], rank, top, y) == RootOf(parent, rank, top, y)
    {
      RootCompress(parent, rank, top, x, y);
    }
  }

  lemma SameRootsTrans(p0: seq<nat>, r0: seq<nat>, t0: nat, p1: seq<nat>, r1: seq<nat>, t1: nat,
                       p2: seq<nat>, r2: seq<nat>, t2: nat)
    requires SameRoots(p0, r0, t0, p1, r1, t1) && SameRoots(p1, r1, t1, p2, r2, t2)
    ensures SameRoots(p0, r0, t0, p2, r2, t2)
  {
  }

  /** Uniting two different roots merges the second's set into the first's. */
  lemma UniteMerges(parent: seq<nat>, rank: seq<nat>, top: nat, a: nat, b: nat,
                    parent': seq<nat>, rank': seq<nat>, top': nat)
    requires United(parent, rank, top, a, b, parent', rank', top')
    requires Forest(parent, rank, top) && parent[a] == a && parent[b] == b
    ensures Merged(parent, rank, top, parent', rank', top', a, b)
  {
    UnitedForest(parent, rank, top, a, b, parent', rank', top');
    forall y | 0 <= y < |parent|
      ensures RootOf(parent', rank', top', y) ==
              if RootOf(parent, rank, top, y) == b then a else RootOf(parent, rank, top, y)
    {
      RootUnite(parent, rank, top, a, b, parent', rank', top', y);
    }
  }

  /** Merging the two representatives of a and b, found in a forest with the
      same representatives as the original, merges b's set into a's there. */
  lemma MergedAfterSame(p0: seq<nat>, r0: seq<nat>, t0: nat, p1: seq<nat>, r1: seq<nat>, t1: nat,
                        p2: seq<nat>, r2: seq<nat>, t2: nat, a: nat, b: nat, ra: nat, rb: nat)
    requires SameRoots(p0, r0, t0, p1, r1, t1) && a < |p0| && b < |p0|
    requires ra == RootOf(p0, r0, t0, a) && rb == RootOf(p0, r0, t0, b)
    requires Merged(p1, r1, t1, p2, r2, t2, ra, rb)
    ensures Merged(p0, r0, t0, p2, r2, t2, a, b)
  {
    assert RootOf(p1, r1, t1, ra) == ra && RootOf(p1, r1, t1, rb) == rb;
  }

  /** When a and b already share a representative, nothing is merged. */
  lemma MergedSame(p0: seq<nat>, r0: seq<nat>, t0: nat, p1: seq<nat>, r1: seq<nat>, t1: nat, a: nat, b: nat)
    requires SameRoots(p0, r0, t0, p1, r1, t1) && a < |p0| && b < |p0|
    requires RootOf(p0, r0, t0, a) == RootOf(p0, r0, t0, b)
    ensures Merged(p0, r0, t0, p1, r1, t1, a, b)
  {
  }

  /** After the merge a and b share a representative. */
  lemma MergedJoins(p0: seq<nat>, r0: seq<nat>, t0: nat, p1: seq<nat>, r1: seq<nat>, t1: nat, a: nat, b: nat)
    requires Merged(p0, r0, t0, p1, r1, t1, a, b)
    ensures RootOf(p1, r1, t1, a) == RootOf(p1, r1, t1, b)
  {
    assert RootOf(p0, r0, t0, RootOf(p0, r0, t0, a)) == RootOf(p0, r0, t0, a);
  }

  /** The tail of `unite`: hanging root b under root a, or nothing when they
      are one root, merges b's set into a's. */
  lemma LinkMerges(parent: seq<nat>, rank: seq<nat>, top: nat, a: nat, b: nat,
                   parent': seq<nat>, rank': seq<nat>, top': nat)
    requires Forest(parent, rank, top) && a < |parent| && b < |parent| && parent[a] == a && parent[b] == b
    requires a != b ==> United(parent, rank, top, a, b, parent', rank', top')
    requires a == b ==> parent' == parent && rank' == rank && top' == top
    ensures Merged(parent, rank, top, parent', rank', top', a, b)
  {
    if a != b {
      UniteMerges(parent, rank, top, a, b, parent', rank', top');
    } else {
      MergedSame(parent, rank, top, parent, rank, top, a, b);
    }
  }

  /** The representative of every element, in element order. */
  ghost function Roots(parent: seq<nat>, rank: seq<nat>, top: nat): (L: seq<nat>)
    requires Forest(parent, rank, top)
    ensures |L| == |parent|
    ensures forall i :: 0 <= i < |parent| ==> L[i] == RootOf(parent, rank, top, i) && L[i] < |parent|
  {
    seq(|parent|, i requires 0 <= i < |parent| => RootOf(parent, rank, top, i))
  }

  /** Forests with the same representatives have the same labelling. */
  lemma SameRootsLabels(parent: seq<nat>, rank: seq<nat>, top: nat,
                        parent': seq<nat>, rank': seq<nat>, top': nat)
    requires SameRoots(parent, rank, top, parent', rank', top')
    ensures Roots(parent', rank', top') == Roots(parent, rank, top)
  {
  }

  /** The labelling after a merge of b's set into a's. */
  lemma MergedLabels(parent: seq<nat>, rank: seq<nat>, top: nat,
                     parent': seq<nat>, rank': seq<nat>, top': nat, a: nat, b: nat)
    requires Merged(parent, rank, top, parent', rank', top', a, b)
    ensures Relabelled(Roots(parent, rank, top), Roots(parent', rank', top'), a, b)
  {
  }

  /** L' is L with every label of b's set replaced by the label of a. */
  ghost predicate Relabelled(L: seq<nat>, L': seq<nat>, a: nat, b: nat) {
    |L'| == |L| && a < |L| && b < |L| &&
    forall y :: 0 <= y < |L| ==> L'[y] == if L[y] == L[b] then L[a] else L[y]
  }

  class DSU {
    var parent: seq<nat>
    ghost var rank: seq<nat>
    ghost var top: nat

    ghost predicate Valid()
      reads this
    {
      Forest(parent, rank, top)
    }

    /** The representative `find` would return. */
    ghost function Root(x: nat): nat
      reads this
      requires Valid() && x < |parent|
    {
      RootOf(parent, rank, top, x)
    }

    /** Every element's representative: the labelling the partition reads. */
    ghost function Labels(): (L: seq<nat>)
      reads this
      requires Valid()
      ensures |L| == |parent| && forall i :: 0 <= i < |parent| ==> L[i] == Root(i) && L[i] < |parent|
    {
      Roots(parent, rank, top)
    }

    constructor ()
      ensures Valid() && parent == []
    {
      parent := [];
      rank := [];
      top := 0;
    }

    /** `add`: the old size becomes a new singleton set. */
    method Add() returns (id: nat)
      requires Valid()
      modifies this
      ensures id == |old(parent)| && parent == old(parent) + [id]
      ensures rank == old(rank) + [0] && top == old(top)
      ensures Valid() && Root(id) == id
      ensures forall y :: 0 <= y < id ==> Root(y) == old(Root(y))
      ensures Labels() == old(Labels()) + [id]
    {
      id := |parent|;
      var parent' := parent + [id];
      ghost var rank' := rank + [0];
      AddKeeps(parent, rank, top);
      assert Forest(parent', rank', top);
      parent, rank := parent', rank';
    }

    /** `find(x)`: the representative of x, with every element on the walk
        pointed straight at it. */
    method Find(x: nat) returns (r: nat)
      requires Valid() && x < |parent|
      modifies this
      ensures SameRoots(old(parent), old(rank), old(top), parent, rank, top)
      ensures rank == old(rank) && top == old(top)
      ensures r == old(Root(x)) && parent[r] == r
      ensures Valid() && Labels() == old(Labels())
      decreases top - rank[x]
    {
      if parent[x] == x {
        return x;
      }
      ghost var p0 := parent;
      r := Find(parent[x]);
      RootRank(p0, rank, top, x);
      ghost var p1 := parent;
      assert RootOf(p1, rank, top, x) == r;
      CompressSame(p1, rank, top, x);
      parent := parent[x := r];
      SameRootsTrans(p0, rank, top, p1, rank, top, parent, rank, top);
      SameRootsLabels(p0, rank, top, parent, rank, top);
    }

    /** The tail of `unite`, once both representatives are found: hang rb
        under ra unless they are the same root. */
    method Link(ra: nat, rb: nat)
      requires Valid() && ra < |parent| && rb < |parent| && parent[ra] == ra && parent[rb] == rb
      modifies this
      ensures Merged(old(parent), old(rank), old(top), parent, rank, top, ra, rb)
    {
      var parent' := if ra != rb then parent[rb := ra] else parent;
      ghost var rank' := if ra != rb then rank[ra := if rank[ra] > rank[rb] then rank[ra] else rank[rb] + 1] else rank;
      ghost var top' := if ra != rb && top <= rank[rb] then rank[rb] + 1 else top;
      LinkMerges(parent, rank, top, ra, rb, parent', rank', top');
      parent, rank, top := parent', rank', top';
    }

    /** `unite(a, b)`: b's representative is hung under a's, so a and b end
        in one set and every other set is untouched. */
    method Unite(a: nat, b: nat)
      requires Valid() && a < |parent| && b < |parent|
      modifies this
      ensures Merged(old(parent), old(rank), old(top), parent, rank, top, a, b)
      ensures Valid() && Root(a) == Root(b)
      ensures Relabelled(old(Labels()), Labels(), a, b)
    {
      ghost var p0, r0, t0 := parent, rank, top;
      var ra := Find(a);
      ghost var p1 := parent;
      var rb := Find(b);
      SameRootsTrans(p0, r0, t0, p1, r0, t0, parent, rank, top);
      ghost var p2, r2, t2 := parent, rank, top;
      Link(ra, rb);
      MergedAfterSame(p0, r0, t0, p2, r2, t2, parent, rank, top, a, b, ra, rb);
      MergedJoins(p0, r0, t0, parent, rank, top, a, b);
      MergedLabels(p0, r0, t0, parent, rank, top, a, b);
    }
  }
}

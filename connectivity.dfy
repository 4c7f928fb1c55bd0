/** Connectivity under a list of undirected links: the reference relation the
    separability analysis of runtime/partitioner.cpp computes with its
    union-find. Two values are joined when a chain of links leads from one to
    the other. */
module Connectivity {

  /** u and v are the two ends of some link, in either order. */
  predicate Adjacent<T(==)>(links: seq<(T, T)>, u: T, v: T) {
    (u, v) in links || (v, u) in links
  }

  /** Consecutive entries of p are linked. */
  ghost predicate IsPath<T(!new)>(links: seq<(T, T)>, p: seq<T>) {
    forall k :: 0 <= k < |p| - 1 ==> Adjacent(links, p[k], p[k + 1])
  }

  /** p is a chain of links from x to y. */
  ghost predicate Chain<T(!new)>(links: seq<(T, T)>, p: seq<T>, x: T, y: T) {
    |p| > 0 && p[0] == x && p[|p| - 1] == y && IsPath(links, p)
  }

  /** Some chain of links leads from x to y. */
  ghost predicate Joined<T(!new)>(links: seq<(T, T)>, x: T, y: T) {
    exists p :: Chain(links, p, x, y)
  }

  /** The chain read backwards. */
  function Reverse<T>(p: seq<T>): (r: seq<T>)
    ensures |r| == |p| && forall k :: 0 <= k < |p| ==> r[k] == p[|p| - 1 - k]
  {
    if p == [] then [] else Reverse(p[1..]) + [p[0]]
  }

  lemma JoinedRefl<T(!new)>(links: seq<(T, T)>, x: T)
    ensures Joined(links, x, x)
  {
    assert Chain(links, [x], x, x);
  }

  lemma JoinedLink<T(!new)>(links: seq<(T, T)>, u: T, v: T)
    requires Adjacent(links, u, v)
    ensures Joined(links, u, v)
  {
    assert Chain(links, [u, v], u, v);
  }

  lemma JoinedSym<T(!new)>(links: seq<(T, T)>, x: T, y: T)
    requires Joined(links, x, y)
    ensures Joined(links, y, x)
  {
    var p :| Chain(links, p, x, y);
    var r := Reverse(p);
    forall k | 0 <= k < |r| - 1
      ensures Adjacent(links, r[k], r[k + 1])
    {
      assert Adjacent(links, p[|p| - 2 - k], p[|p| - 1 - k]);
    }
    assert Chain(links, r, y, x);
  }

  lemma JoinedTrans<T(!new)>(links: seq<(T, T)>, x: T, y: T, z: T)
    requires Joined(links, x, y) && Joined(links, y, z)
    ensures Joined(links, x, z)
  {
    var p :| Chain(links, p, x, y);
    var q :| Chain(links, q, y, z);
    var r := p + q[1..];
    forall k | 0 <= k < |r| - 1
      ensures Adjacent(links, r[k], r[k + 1])
    {
      if k < |p| - 1 {
        assert r[k] == p[k] && r[k + 1] == p[k + 1];
      } else {
        assert r[k] == q[k - |p| + 1] && r[k + 1] == q[k - |p| + 2];
      }
    }
    assert Chain(links, r, x, z);
  }

  /** More links join at least as much. */
  lemma JoinedMono<T(!new)>(links: seq<(T, T)>, more: seq<(T, T)>, x: T, y: T)
    requires forall e :: e in links ==> e in more
    requires Joined(links, x, y)
    ensures Joined(more, x, y)
  {
    var p :| Chain(links, p, x, y);
    assert Chain(more, p, x, y);
  }

  /** A value no link touches is joined to itself only. */
  lemma JoinedIsolated<T(!new)>(links: seq<(T, T)>, x: T, y: T)
    requires forall e :: e in links ==> e.0 != x && e.1 != x
    ensures Joined(links, x, y) <==> x == y
  {
    if Joined(links, x, y) {
      var p :| Chain(links, p, x, y);
      assert |p| > 1 ==> Adjacent(links, p[0], p[1]);
      assert forall w :: !Adjacent(links, x, w);
    } else if x == y {
      JoinedRefl(links, x);
    }
  }

  /** What one more link (u, v) adds: x and y become joined exactly when they
      were, or one of them was joined to u and the other to v. */
  ghost predicate Bridged<T(!new)>(links: seq<(T, T)>, u: T, v: T, x: T, y: T) {
    Joined(links, x, y) || (Joined(links, x, u) && Joined(links, v, y)) ||
    (Joined(links, x, v) && Joined(links, u, y))
  }

  lemma JoinedExtend<T(!new)>(links: seq<(T, T)>, u: T, v: T, x: T, y: T)
    ensures Joined(links + [(u, v)], x, y) <==> Bridged(links, u, v, x, y)
  {
    var more := links + [(u, v)];
    if Joined(more, x, y) {
      var p :| Chain(more, p, x, y);
      ChainBridged(links, u, v, p, |p|);
    }
    if Bridged(links, u, v, x, y) {
      assert forall e :: e in links ==> e in more;
      assert Adjacent(more, u, v);
      JoinedLink(more, u, v);
      JoinedSym(more, u, v);
      if Joined(links, x, y) {
        JoinedMono(links, more, x, y);
      } else if Joined(links, x, u) && Joined(links, v, y) {
        JoinedMono(links, more, x, u);
        JoinedMono(links, more, v, y);
        JoinedTrans(more, x, u, v);
        JoinedTrans(more, x, v, y);
      } else {
        JoinedMono(links, more, x, v);
        JoinedMono(links, more, u, y);
        JoinedTrans(more, x, v, u);
        JoinedTrans(more, x, u, y);
      }
    }
  }

  /** Every prefix of a chain over the extended links ends Bridged to its start. */
  lemma {:induction false} ChainBridged<T(!new)>(links: seq<(T, T)>, u: T, v: T, p: seq<T>, m: nat)
    requires |p| > 0 && IsPath(links + [(u, v)], p) && 0 < m <= |p|
    ensures Bridged(links, u, v, p[0], p[m - 1])
  {
    var x := p[0];
    if m == 1 {
      JoinedRefl(links, x);
    } else {
      ChainBridged(links, u, v, p, m - 1);
      var z, y := p[m - 2], p[m - 1];
      assert Adjacent(links + [(u, v)], z, y);
      if Adjacent(links, z, y) {
        JoinedLink(links, z, y);
        StepBridged(links, u, v, x, z, y);
      } else {
        JoinedRefl(links, u);
        JoinedRefl(links, v);
        if z == u && y == v {
          if Joined(links, x, u) && Joined(links, v, u) {
            JoinedSym(links, v, u);
            JoinedTrans(links, x, u, v);
          }
        } else {
          assert z == v && y == u;
          if Joined(links, x, v) && Joined(links, u, v) {
            JoinedSym(links, u, v);
            JoinedTrans(links, x, v, u);
          }
        }
      }
    }
  }

  /** Following an old link keeps a Bridged pair Bridged. */
  lemma StepBridged<T(!new)>(links: seq<(T, T)>, u: T, v: T, x: T, z: T, y: T)
    requires Bridged(links, u, v, x, z) && Joined(links, z, y)
    ensures Bridged(links, u, v, x, y)
  {
    if Joined(links, x, z) {
      JoinedTrans(links, x, z, y);
    } else if Joined(links, x, u) && Joined(links, v, z) {
      JoinedTrans(links, v, z, y);
    } else {
      JoinedTrans(links, u, z, y);
    }
  }
}

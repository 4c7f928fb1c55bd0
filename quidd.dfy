/** The quantum decision diagram of runtime/quidd.cpp. Nodes live in an arena
    (`nodes`) and are hash-consed through two tables: `term_table` for
    terminals, keyed by their value, and `unique_table` for internal nodes,
    keyed by (var, low, high). A node pointer is modelled as its index in the
    arena. The pure model works on the arena alone: a table lookup is a search
    of the arena for a node with the same contents, and the class proves that
    its tables answer exactly as that search does. `build` bisects the state
    vector and returns the low child itself when both halves give the same
    node; `fill` expands a node back into a vector. */
module DecisionDiagram {
  import opened ComplexNumbers
  import opened Bits
  import opened Wrappers

  /** A terminal carries an amplitude; an internal node tests bit `level` of
      the index (the source's `var`) and points to two earlier nodes. */
  datatype Node = Terminal(value: Complex) | Branch(level: nat, low: nat, high: nat)

  /** The key of `unique_table`. */
  datatype NodeKey = NodeKey(level: nat, low: nat, high: nat)

  /** A node of an arena, as `make_terminal`, `make_node` and `build` return it. */
  datatype Made = Made(nodes: seq<Node>, node: nat)

  /** `sizeof(Node)` with 64-bit pointers: two pointers, a size_t, a bool
      padded to 8 bytes and a complex<double>. */
  const NodeBytes: nat := 48

  /** No two arena nodes have the same contents. */
  ghost predicate Distinct(nodes: seq<Node>) {
    forall i: nat, j: nat :: i < j < |nodes| ==> Apart(nodes, i, j)
  }

  /** Positions i and j of the arena hold different contents. */
  ghost predicate Apart(nodes: seq<Node>, i: nat, j: nat) {
    i < |nodes| && j < |nodes| && nodes[i] != nodes[j]
  }

  /** The different node structures an arena holds. */
  ghost function Structures(nodes: seq<Node>): set<Node> {
    set i | 0 <= i < |nodes| :: nodes[i]
  }

  /** In an arena without repeats, every position holds a structure of its
      own, so the arena is as long as its set of structures. */
  lemma {:induction false} DistinctStructures(nodes: seq<Node>)
    ensures Distinct(nodes) ==> |Structures(nodes)| == |nodes|
  {
    if Distinct(nodes) && |nodes| > 0 {
      var init := nodes[..|nodes| - 1];
      var last := nodes[|nodes| - 1];
      assert Distinct(init) by {
        forall i: nat, j: nat | i < j < |init|
          ensures Apart(init, i, j)
        {
          assert Apart(nodes, i, j);
        }
      }
      DistinctStructures(init);
      assert Structures(nodes) == Structures(init) + {last} by {
        forall n | n in Structures(nodes)
          ensures n in Structures(init) + {last}
        {
          var i :| 0 <= i < |nodes| && nodes[i] == n;
          if i < |init| {
            assert init[i] == n;
          }
        }
        forall n | n in Structures(init)
          ensures n in Structures(nodes)
        {
          var i :| 0 <= i < |init| && init[i] == n;
          assert nodes[i] == n;
        }
      }
      assert last !in Structures(init) by {
        forall i | 0 <= i < |init|
          ensures init[i] != last
        {
          assert Apart(nodes, i, |nodes| - 1);
        }
      }
    }
  }

  /** Every internal node points to nodes created before it. */
  ghost predicate WellFormed(nodes: seq<Node>) {
    forall i :: 0 <= i < |nodes| && nodes[i].Branch? ==> nodes[i].low < i && nodes[i].high < i
  }

  /** No internal node has equal children. */
  ghost predicate Reduced(nodes: seq<Node>) {
    forall i :: 0 <= i < |nodes| && nodes[i].Branch? ==> nodes[i].low != nodes[i].high
  }

  /** Everything `build` keeps of an arena. */
  ghost predicate Canonical(nodes: seq<Node>) {
    Distinct(nodes) && WellFormed(nodes) && Reduced(nodes)
  }

  /** A node that may be added to a canonical arena without breaking it. */
  ghost predicate Admissible(nodes: seq<Node>, n: Node) {
    n.Branch? ==> n.low < |nodes| && n.high < |nodes| && n.low != n.high
  }

  /** Node p can stand for a range of 2^lv amplitudes: it tests no bit at or
      above the top of the range. */
  predicate Fits(nodes: seq<Node>, p: nat, lv: nat)
    requires p < |nodes|
  {
    nodes[p].Branch? ==> nodes[p].level < lv
  }

  /** The position of a node with the contents n, searching from the newest. */
  function Find(nodes: seq<Node>, n: Node): (r: Option<nat>)
    ensures r.Some? ==> r.value < |nodes| && nodes[r.value] == n
    ensures r.None? <==> n !in nodes
  {
    if |nodes| == 0 then None
    else if nodes[|nodes| - 1] == n then Some(|nodes| - 1)
    else
      assert nodes == nodes[..|nodes| - 1] + [nodes[|nodes| - 1]];
      Find(nodes[..|nodes| - 1], n)
  }

  /** `make_terminal` and `make_node`: the existing node with these contents,
      or a new one appended. */
  function Intern(nodes: seq<Node>, n: Node): Made {
    match Find(nodes, n)
    case Some(i) => Made(nodes, i)
    case None => Made(nodes + [n], |nodes|)
  }

  /** `build(st, start, start + 2^lv, lv)`: bisect a range of 2^lv amplitudes;
      when both halves give the same node, that node is returned. */
  function BuildF(nodes: seq<Node>, st: seq<Complex>, start: nat, lv: nat): Made
    requires start + Pow2(lv) <= |st|
    decreases lv
  {
    if lv == 0 then Intern(nodes, Terminal(st[start]))
    else
      var l := BuildF(nodes, st, start, lv - 1);
      var h := BuildF(l.nodes, st, start + Pow2(lv - 1), lv - 1);
      Combine(h.nodes, l.node, h.node, lv - 1)
  }

  /** One unfolding of BuildF above the leaves. */
  lemma BuildUnfold(a: seq<Node>, st: seq<Complex>, start: nat, lv: nat)
    requires lv > 0 && start + Pow2(lv) <= |st|
    ensures var l := BuildF(a, st, start, lv - 1);
            var h := BuildF(l.nodes, st, start + Pow2(lv - 1), lv - 1);
            BuildF(a, st, start, lv) == Combine(h.nodes, l.node, h.node, lv - 1)
  {
  }

  /** The end of `build`: `if (low == high) return low;`, else `make_node`. */
  function Combine(nodes: seq<Node>, lo: nat, hi: nat, level: nat): Made {
    if lo == hi then Made(nodes, lo) else Intern(nodes, Branch(level, lo, hi))
  }

  /** What a node means as a range of 2^lv amplitudes, read by the bit each
      node tests: a terminal is constant; a node testing the top bit of the
      range splits it; one testing a lower bit (a level skipped by the
      low == high reduction) stands for both halves alike; and one testing a
      bit above the range sees it clear throughout and reads as its low child. */
  function Expanded(nodes: seq<Node>, p: nat, lv: nat): (r: seq<Complex>)
    requires WellFormed(nodes) && p < |nodes|
    ensures |r| == Pow2(lv)
    decreases lv, p
  {
    match nodes[p]
    case Terminal(v) => Repeat(v, Pow2(lv))
    case Branch(w, lo, hi) =>
      if lv <= w then Expanded(nodes, lo, lv)
      else if w + 1 < lv then Expanded(nodes, p, lv - 1) + Expanded(nodes, p, lv - 1)
      else Expanded(nodes, lo, lv - 1) + Expanded(nodes, hi, lv - 1)
  }

  /** What `fill(node, start, end, out)` writes into a range of len slots: a
      terminal broadcasts its value; an internal node sends its children to
      the two halves, whatever bit it tests. */
  function Filled(nodes: seq<Node>, p: nat, len: nat): (r: seq<Complex>)
    requires WellFormed(nodes) && p < |nodes|
    ensures |r| == len
    decreases p
  {
    match nodes[p]
    case Terminal(v) => Repeat(v, len)
    case Branch(_, lo, hi) => Filled(nodes, lo, len / 2) + Filled(nodes, hi, len - len / 2)
  }

  /** Every internal node reached tests the top bit of its range: no level
      was skipped. */
  predicate Tight(nodes: seq<Node>, p: nat, lv: nat)
    requires WellFormed(nodes) && p < |nodes|
    decreases p
  {
    match nodes[p]
    case Terminal(_) => true
    case Branch(w, lo, hi) => lv > 0 && w + 1 == lv && Tight(nodes, lo, lv - 1) && Tight(nodes, hi, lv - 1)
  }

  /** A power of two at least 1, the sizes `build` accepts. */
  predicate PowerOfTwo(n: nat) {
    n == 1 || (n >= 2 && n % 2 == 0 && PowerOfTwo(n / 2))
  }

  function Log2(n: nat): (k: nat)
    requires PowerOfTwo(n)
    ensures Pow2(k) == n
  {
    if n == 1 then 0 else 1 + Log2(n / 2)
  }

  /** n copies of v. */
  function Repeat<T>(v: T, n: nat): (r: seq<T>)
    ensures |r| == n && forall i :: 0 <= i < n ==> r[i] == v
  {
    seq(n, _ => v)
  }

  /** `s` with the slots from `start` on overwritten by `x`. */
  function Patch<T>(s: seq<T>, start: nat, x: seq<T>): (r: seq<T>)
    requires start + |x| <= |s|
    ensures |r| == |s|
  {
    s[..start] + x + s[start + |x|..]
  }

  // ---------------------------------------------------------------------------
  // Hash-consing keeps the arena canonical

  /** In an arena without duplicates, the search finds each node where it is. */
  lemma FindDistinct(nodes: seq<Node>, i: nat)
    requires Distinct(nodes) && i < |nodes|
    ensures Find(nodes, nodes[i]) == Some(i)
  {
    assert nodes[i] in nodes;
    DistinctIndex(nodes, i, Find(nodes, nodes[i]).value);
  }

  /** In an arena without duplicates, equal contents mean the same position. */
  lemma DistinctIndex(nodes: seq<Node>, i: nat, k: nat)
    requires Distinct(nodes) && i < |nodes| && k < |nodes| && nodes[i] == nodes[k]
    ensures i == k
  {
    assert i < k ==> Apart(nodes, i, k);
    assert k < i ==> Apart(nodes, k, i);
  }

  /** Interning returns a node with those contents, appends one only for
      contents not present, never disturbs existing nodes, and keeps the arena
      canonical when the node may be added. */
  lemma InternKeeps(nodes: seq<Node>, n: Node)
    requires Distinct(nodes)
    ensures var r := Intern(nodes, n);
            Distinct(r.nodes) && nodes <= r.nodes &&
            r.node < |r.nodes| && r.nodes[r.node] == n &&
            |r.nodes| == |nodes| + (if n in nodes then 0 else 1)
    ensures Canonical(nodes) && Admissible(nodes, n) ==> Canonical(Intern(nodes, n).nodes)
  {
    var r := Intern(nodes, n);
    if n !in nodes {
      assert r.nodes == nodes + [n];
      forall i: nat, j: nat | i < j < |r.nodes|
        ensures Apart(r.nodes, i, j)
      {
        assert r.nodes[i] == nodes[i];
        if j < |nodes| {
          assert Apart(nodes, i, j);
          assert r.nodes[j] == nodes[j];
        } else {
          assert nodes[i] in nodes;
        }
      }
    }
  }

  /** Growing the arena does not change what an existing node means. */
  lemma ExpandedExtends(a: seq<Node>, b: seq<Node>, p: nat, lv: nat)
    requires WellFormed(a) && WellFormed(b) && a <= b && p < |a|
    ensures Expanded(b, p, lv) == Expanded(a, p, lv)
    decreases lv, p, 1
  {
    assert b[p] == a[p];
    if a[p].Terminal? {
      AgreeLeaf(a, b, p, lv);
    } else if lv <= a[p].level {
      AgreeAbove(a, b, p, lv);
    } else if a[p].level + 1 < lv {
      AgreeBelow(a, b, p, lv);
    } else {
      AgreeSplit(a, b, p, lv);
    }
  }

  // One unfolding of Expanded per case.

  lemma ExpandLeaf(nodes: seq<Node>, p: nat, lv: nat)
    requires WellFormed(nodes) && p < |nodes| && nodes[p].Terminal?
    ensures Expanded(nodes, p, lv) == Repeat(nodes[p].value, Pow2(lv))
  {
  }

  lemma ExpandAbove(nodes: seq<Node>, p: nat, lv: nat)
    requires WellFormed(nodes) && p < |nodes| && nodes[p].Branch? && lv <= nodes[p].level
    ensures Expanded(nodes, p, lv) == Expanded(nodes, nodes[p].low, lv)
  {
  }

  /** A node splitting a range of 2^lv means two halves, each either the
      node itself (a skipped level) or one of its children. */
  lemma ExpandHalves(nodes: seq<Node>, p: nat, lv: nat, lo: nat, hi: nat)
    requires WellFormed(nodes) && p < |nodes| && nodes[p].Branch? && nodes[p].level < lv
    requires lo == (if nodes[p].level + 1 < lv then p else nodes[p].low)
    requires hi == (if nodes[p].level + 1 < lv then p else nodes[p].high)
    ensures lo < |nodes| && hi < |nodes|
    ensures Expanded(nodes, p, lv) == Expanded(nodes, lo, lv - 1) + Expanded(nodes, hi, lv - 1)
  {
    if nodes[p].level + 1 < lv {
      ExpandBelow(nodes, p, lv);
    } else {
      ExpandSplit(nodes, p, lv);
    }
  }

  lemma ExpandBelow(nodes: seq<Node>, p: nat, lv: nat)
    requires WellFormed(nodes) && p < |nodes| && nodes[p].Branch? && nodes[p].level + 1 < lv
    ensures Expanded(nodes, p, lv) == Expanded(nodes, p, lv - 1) + Expanded(nodes, p, lv - 1)
  {
  }

  lemma ExpandSplit(nodes: seq<Node>, p: nat, lv: nat)
    requires WellFormed(nodes) && p < |nodes| && nodes[p].Branch? && nodes[p].level + 1 == lv
    ensures Expanded(nodes, p, lv) == Expanded(nodes, nodes[p].low, lv - 1) + Expanded(nodes, nodes[p].high, lv - 1)
  {
  }

  // The cases of ExpandedExtends, one unfolding of Expanded each.

  lemma AgreeLeaf(a: seq<Node>, b: seq<Node>, p: nat, lv: nat)
    requires WellFormed(a) && WellFormed(b) && p < |a| && p < |b| && b[p] == a[p] && a[p].Terminal?
    ensures Expanded(b, p, lv) == Expanded(a, p, lv)
  {
  }

  lemma AgreeAbove(a: seq<Node>, b: seq<Node>, p: nat, lv: nat)
    requires WellFormed(a) && WellFormed(b) && a <= b && p < |a| && b[p] == a[p]
    requires a[p].Branch? && lv <= a[p].level
    ensures Expanded(b, p, lv) == Expanded(a, p, lv)
    decreases lv, p, 0
  {
    ExpandedExtends(a, b, a[p].low, lv);
  }

  lemma AgreeBelow(a: seq<Node>, b: seq<Node>, p: nat, lv: nat)
    requires WellFormed(a) && WellFormed(b) && a <= b && p < |a| && b[p] == a[p]
    requires a[p].Branch? && a[p].level + 1 < lv
    ensures Expanded(b, p, lv) == Expanded(a, p, lv)
    decreases lv, p, 0
  {
    ExpandedExtends(a, b, p, lv - 1);
  }

  lemma AgreeSplit(a: seq<Node>, b: seq<Node>, p: nat, lv: nat)
    requires WellFormed(a) && WellFormed(b) && a <= b && p < |a| && b[p] == a[p]
    requires a[p].Branch? && a[p].level + 1 == lv
    ensures Expanded(b, p, lv) == Expanded(a, p, lv)
    decreases lv, p, 0
  {
    ExpandedExtends(a, b, a[p].low, lv - 1);
    ExpandedExtends(a, b, a[p].high, lv - 1);
  }

  /** A node shared by both halves of a range means itself twice: a terminal
      is constant, and a fitting internal node tests a lower bit. */
  lemma SharedHalves(nodes: seq<Node>, p: nat, lv: nat)
    requires lv > 0 && WellFormed(nodes) && p < |nodes| && Fits(nodes, p, lv - 1)
    ensures Expanded(nodes, p, lv) == Expanded(nodes, p, lv - 1) + Expanded(nodes, p, lv - 1)
  {
    if nodes[p].Terminal? {
      var v := nodes[p].value;
      assert Repeat(v, Pow2(lv)) == Repeat(v, Pow2(lv - 1)) + Repeat(v, Pow2(lv - 1));
    }
  }

  /** Halves built into different nodes get an internal node testing the top
      bit of the range, found or appended; it means the two halves side by side. */
  lemma FreshHalves(h: seq<Node>, lo: nat, hi: nat, lv: nat)
    requires lv > 0 && Canonical(h) && lo < |h| && hi < |h| && lo != hi
    ensures var c := Intern(h, Branch(lv - 1, lo, hi));
            WellFormed(c.nodes) && c.node < |c.nodes| &&
            Expanded(c.nodes, c.node, lv) == Expanded(h, lo, lv - 1) + Expanded(h, hi, lv - 1)
  {
    var n := Branch(lv - 1, lo, hi);
    InternKeeps(h, n);
    var c := Intern(h, n);
    SplitMeans(h, c.nodes, c.node, lv);
  }

  /** A node of a grown arena b testing the top bit of the range means the
      meanings of its two children, both nodes of a, side by side. */
  lemma SplitMeans(a: seq<Node>, b: seq<Node>, q: nat, lv: nat)
    requires lv > 0 && WellFormed(a) && WellFormed(b) && a <= b && q < |b|
    requires b[q].Branch? && b[q].level == lv - 1 && b[q].low < |a| && b[q].high < |a|
    ensures Expanded(b, q, lv) == Expanded(a, b[q].low, lv - 1) + Expanded(a, b[q].high, lv - 1)
  {
    ExpandedExtends(a, b, b[q].low, lv - 1);
    ExpandedExtends(a, b, b[q].high, lv - 1);
  }

  /** The end of `build` once both halves are built into arena h: the node
      returned means the two halves side by side, costing at most one node. */
  lemma CombineMeans(h: seq<Node>, lo: nat, hi: nat, lv: nat)
    requires lv > 0 && Canonical(h) && lo < |h| && hi < |h|
    requires Fits(h, lo, lv - 1)
    ensures var c := Combine(h, lo, hi, lv - 1);
            Canonical(c.nodes) && h <= c.nodes && |c.nodes| <= |h| + 1 &&
            c.node < |c.nodes| && Fits(c.nodes, c.node, lv) &&
            Expanded(c.nodes, c.node, lv) == Expanded(h, lo, lv - 1) + Expanded(h, hi, lv - 1)
  {
    if lo == hi {
      SharedHalves(h, lo, lv);
    } else {
      InternKeeps(h, Branch(lv - 1, lo, hi));
      FreshHalves(h, lo, hi, lv);
    }
  }

  /** r, built from arena a, is what `build` promises for the range of 2^lv
      amplitudes from `start`: the arena stays canonical and only grows, by at
      most 2 * 2^lv - 1 nodes, and r's node means exactly that range. */
  ghost predicate Sound(a: seq<Node>, r: Made, st: seq<Complex>, start: nat, lv: nat) {
    start + Pow2(lv) <= |st| &&
    Canonical(r.nodes) && a <= r.nodes && |r.nodes| <= |a| + 2 * Pow2(lv) - 1 &&
    r.node < |r.nodes| && Fits(r.nodes, r.node, lv) &&
    Expanded(r.nodes, r.node, lv) == st[start..start + Pow2(lv)]
  }

  /** The leaves of `build`: a range of one amplitude is its terminal. */
  lemma BuildLeaf(a: seq<Node>, st: seq<Complex>, start: nat)
    requires Canonical(a) && start < |st|
    ensures Sound(a, Intern(a, Terminal(st[start])), st, start, 0)
  {
    InternKeeps(a, Terminal(st[start]));
  }

  /** One level of `build`: two sound halves combine into a sound range. */
  lemma BuildStep(a: seq<Node>, l: Made, h: Made, st: seq<Complex>, start: nat, lv: nat)
    requires lv > 0 && start + Pow2(lv) <= |st|
    requires Sound(a, l, st, start, lv - 1)
    requires Sound(l.nodes, h, st, start + Pow2(lv - 1), lv - 1)
    ensures Sound(a, Combine(h.nodes, l.node, h.node, lv - 1), st, start, lv)
  {
    var c := Combine(h.nodes, l.node, h.node, lv - 1);
    assert h.nodes[l.node] == l.nodes[l.node];
    var x, y := st[start..start + Pow2(lv - 1)], st[start + Pow2(lv - 1)..start + Pow2(lv - 1) + Pow2(lv - 1)];
    MeaningExtends(l.nodes, h.nodes, l.node, lv - 1, x);
    CombineSlices(h.nodes, l.node, h.node, lv, x, y);
    PrefixTrans(a, l.nodes, h.nodes);
    PrefixTrans(a, h.nodes, c.nodes);
    StepMeaning(st, start, Pow2(lv - 1), Pow2(lv), x, y, Expanded(c.nodes, c.node, lv));
  }

  /** CombineMeans, with the meanings of the halves given. */
  lemma CombineSlices(h: seq<Node>, lo: nat, hi: nat, lv: nat, x: seq<Complex>, y: seq<Complex>)
    requires lv > 0 && Canonical(h) && lo < |h| && hi < |h| && Fits(h, lo, lv - 1)
    requires Expanded(h, lo, lv - 1) == x && Expanded(h, hi, lv - 1) == y
    ensures var c := Combine(h, lo, hi, lv - 1);
            Canonical(c.nodes) && h <= c.nodes && |c.nodes| <= |h| + 1 &&
            c.node < |c.nodes| && Fits(c.nodes, c.node, lv) && Expanded(c.nodes, c.node, lv) == x + y
  {
    CombineMeans(h, lo, hi, lv);
  }

  /** Growing the arena keeps what a node means. */
  lemma MeaningExtends(a: seq<Node>, b: seq<Node>, p: nat, lv: nat, s: seq<Complex>)
    requires WellFormed(a) && WellFormed(b) && a <= b && p < |a| && Expanded(a, p, lv) == s
    ensures Expanded(b, p, lv) == s
  {
    ExpandedExtends(a, b, p, lv);
  }

  /** Two halves that mean adjacent slices join into the slice they cover. */
  lemma StepMeaning<T>(st: seq<T>, start: nat, half: nat, len: nat, x: seq<T>, y: seq<T>, z: seq<T>)
    requires len == half + half && start + len <= |st|
    requires x == st[start..start + half] && y == st[start + half..start + half + half] && z == x + y
    ensures z == st[start..start + len]
  {
    SliceSplit(st, start, start + half, start + len);
  }

  /** Two adjacent slices side by side are the slice they cover. */
  lemma JoinSlices<T>(st: seq<T>, start: nat, half: nat, x: seq<T>, y: seq<T>, z: seq<T>)
    requires start + half + half <= |st|
    requires x == st[start..start + half] && y == st[start + half..start + half + half] && z == x + y
    ensures z == st[start..start + half + half]
  {
    SliceSplit(st, start, start + half, start + half + half);
  }

  lemma PrefixTrans(a: seq<Node>, b: seq<Node>, c: seq<Node>)
    requires a <= b && b <= c
    ensures a <= c
  {
    assert c[..|a|] == b[..|a|];
  }

  lemma SliceSplit<T>(st: seq<T>, start: nat, mid: nat, end: nat)
    requires start <= mid <= end <= |st|
    ensures st[start..end] == st[start..mid] + st[mid..end]
  {
  }

  /** `build` keeps the arena canonical, only appends to it, at most
      2 * 2^lv - 1 nodes, and returns a node meaning exactly its range. */
  lemma {:induction false} BuildSound(a: seq<Node>, st: seq<Complex>, start: nat, lv: nat)
    requires Canonical(a) && start + Pow2(lv) <= |st|
    ensures Sound(a, BuildF(a, st, start, lv), st, start, lv)
    decreases lv
  {
    if lv == 0 {
      BuildLeaf(a, st, start);
    } else {
      var l := BuildF(a, st, start, lv - 1);
      BuildSound(a, st, start, lv - 1);
      var h := BuildF(l.nodes, st, start + Pow2(lv - 1), lv - 1);
      BuildSound(l.nodes, st, start + Pow2(lv - 1), lv - 1);
      BuildStep(a, l, h, st, start, lv);
    }
  }

  /** The arena after construction from a power-of-two vector: canonical, at
      most 2 * size - 1 nodes, and the root means the vector. */
  lemma ConstructionSound(st: seq<Complex>)
    requires PowerOfTwo(|st|)
    ensures var r := BuildF([], st, 0, Log2(|st|));
            Canonical(r.nodes) && |r.nodes| <= 2 * |st| - 1 &&
            r.node < |r.nodes| && Fits(r.nodes, r.node, Log2(|st|)) &&
            Expanded(r.nodes, r.node, Log2(|st|)) == st
  {
    BuildSound([], st, 0, Log2(|st|));
    assert st[0..|st|] == st;
  }

  // ---------------------------------------------------------------------------
  // fill against the meaning of a node

  /** Where no level was skipped, `fill` expands a node correctly. */
  lemma TightFillIsExpanded(nodes: seq<Node>, p: nat, lv: nat)
    requires WellFormed(nodes) && p < |nodes| && Tight(nodes, p, lv)
    ensures Filled(nodes, p, Pow2(lv)) == Expanded(nodes, p, lv)
    decreases p, 1
  {
    if nodes[p].Terminal? {
      TightFillLeaf(nodes, p, lv);
    } else {
      TightFillSplit(nodes, p, lv);
    }
  }

  lemma TightFillLeaf(nodes: seq<Node>, p: nat, lv: nat)
    requires WellFormed(nodes) && p < |nodes| && nodes[p].Terminal?
    ensures Filled(nodes, p, Pow2(lv)) == Expanded(nodes, p, lv)
  {
  }

  lemma TightFillSplit(nodes: seq<Node>, p: nat, lv: nat)
    requires WellFormed(nodes) && p < |nodes| && Tight(nodes, p, lv) && nodes[p].Branch?
    ensures Filled(nodes, p, Pow2(lv)) == Expanded(nodes, p, lv)
    decreases p, 0
  {
    var lo, hi := nodes[p].low, nodes[p].high;
    var len, half := Pow2(lv), Pow2(lv - 1);
    assert len / 2 == half && len - len / 2 == half;
    TightFillIsExpanded(nodes, lo, lv - 1);
    TightFillIsExpanded(nodes, hi, lv - 1);
    FilledSplit(nodes, p, len);
  }

  /** One unfolding of Filled at an internal node. */
  lemma FilledSplit(nodes: seq<Node>, p: nat, len: nat)
    requires WellFormed(nodes) && p < |nodes| && nodes[p].Branch?
    ensures Filled(nodes, p, len) == Filled(nodes, nodes[p].low, len / 2) + Filled(nodes, nodes[p].high, len - len / 2)
  {
  }

  /** The round trip of the conversion test holds whenever the diagram built
      skips no level. */
  lemma TightRoundTrip(st: seq<Complex>)
    requires PowerOfTwo(|st|)
    ensures var r := BuildF([], st, 0, Log2(|st|));
            r.node < |r.nodes| && WellFormed(r.nodes) &&
            (Tight(r.nodes, r.node, Log2(|st|)) ==> Filled(r.nodes, r.node, |st|) == st)
  {
    ConstructionSound(st);
    var r := BuildF([], st, 0, Log2(|st|));
    if Tight(r.nodes, r.node, Log2(|st|)) {
      TightFillIsExpanded(r.nodes, r.node, Log2(|st|));
    }
  }

  /** `fill` ignores `var`: for [x, y, x, y] with x != y, `build` shares the
      qubit-0 node between both halves and returns it as the root, and `fill`
      spreads its two terminals over halves of the whole vector. */
  lemma FillIgnoresLevel(x: Complex, y: Complex)
    requires x != y
    ensures var r := BuildF([], [x, y, x, y], 0, 2);
            WellFormed(r.nodes) && r.node < |r.nodes| &&
            Expanded(r.nodes, r.node, 2) == [x, y, x, y] &&
            Filled(r.nodes, r.node, 4) == [x, x, y, y]
  {
    var st, a := [x, y, x, y], ExampleArena(x, y);
    ExampleLowHalf(x, y);
    ExampleHighHalf(x, y);
    assert Pow2(1) == 2;
    assert BuildF([], st, 0, 2) == Combine(a, 2, 2, 1);
    ExampleExpanded(x, y);
    ExampleFilled(x, y);
  }

  /** The arena `build` makes for [x, y, x, y]: both terminals and the
      qubit-0 node over them. */
  function ExampleArena(x: Complex, y: Complex): (a: seq<Node>)
    ensures WellFormed(a) && |a| == 3
  {
    [Terminal(x), Terminal(y), Branch(0, 0, 1)]
  }

  lemma ExampleLowHalf(x: Complex, y: Complex)
    requires x != y
    ensures BuildF([], [x, y, x, y], 0, 1) == Made(ExampleArena(x, y), 2)
  {
    var st, a := [x, y, x, y], ExampleArena(x, y);
    assert Pow2(0) == 1;
    assert BuildF([], st, 0, 0) == Made([Terminal(x)], 0);
    assert Find([Terminal(x)], Terminal(y)) == None;
    assert BuildF([Terminal(x)], st, 1, 0) == Made(a[..2], 1);
    assert Find(a[..2], Branch(0, 0, 1)) == None;
  }

  lemma ExampleHighHalf(x: Complex, y: Complex)
    requires x != y
    ensures BuildF(ExampleArena(x, y), [x, y, x, y], 2, 1) == Made(ExampleArena(x, y), 2)
  {
    var st, a := [x, y, x, y], ExampleArena(x, y);
    assert Pow2(0) == 1;
    assert Find(a, Terminal(x)) == Some(0);
    assert Find(a, Terminal(y)) == Some(1);
    assert BuildF(a, st, 2, 0) == Made(a, 0);
    assert BuildF(a, st, 3, 0) == Made(a, 1);
    assert Find(a, Branch(0, 0, 1)) == Some(2);
  }

  lemma ExampleExpanded(x: Complex, y: Complex)
    ensures Expanded(ExampleArena(x, y), 2, 2) == [x, y, x, y]
  {
    var a := ExampleArena(x, y);
    assert Pow2(0) == 1;
    assert Expanded(a, 0, 0) == [x] && Expanded(a, 1, 0) == [y];
    assert Expanded(a, 2, 1) == [x, y];
  }

  lemma ExampleFilled(x: Complex, y: Complex)
    ensures Filled(ExampleArena(x, y), 2, 4) == [x, x, y, y]
  {
    var a := ExampleArena(x, y);
    assert Filled(a, 0, 2) == [x, x] && Filled(a, 1, 2) == [y, y];
  }

  // ---------------------------------------------------------------------------
  // The GHZ state of the conversion test

  /** `sizeof(std::complex<double>)`. */
  const ComplexBytes: nat := 16

  /** x times the GHZ state on n qubits: x at index 0 and at index 2^n - 1,
      zero elsewhere. */
  function Ghz(n: nat, x: Complex): (r: seq<Complex>)
    ensures |r| == Pow2(n)
  {
    seq(Pow2(n), i => if i == 0 || i == Pow2(n) - 1 then x else Zero)
  }

  /** st holds v throughout the range of 2^lv amplitudes from start. */
  ghost predicate ConstantRange(st: seq<Complex>, start: nat, lv: nat, v: Complex) {
    start + Pow2(lv) <= |st| && forall i :: start <= i < start + Pow2(lv) ==> st[i] == v
  }

  /** st holds x at index `at` of the range and zero elsewhere in it. */
  ghost predicate SpikeRange(st: seq<Complex>, start: nat, lv: nat, at: nat, x: Complex) {
    start + Pow2(lv) <= |st| && forall i :: start <= i < start + Pow2(lv) ==> st[i] == if i == at then x else Zero
  }

  /** How many of the terminals x and Zero the arena still lacks. */
  function Missing(a: seq<Node>, x: Complex): nat {
    (if Terminal(x) in a then 0 else 1) + (if Terminal(Zero) in a then 0 else 1)
  }

  lemma InPrefix(a: seq<Node>, b: seq<Node>, n: Node)
    requires a <= b && n in a
    ensures n in b
  {
    var i :| 0 <= i < |a| && a[i] == n;
    assert b[i] == n;
  }

  /** Growing the arena keeps a node tight. */
  lemma {:induction false} TightExtends(a: seq<Node>, b: seq<Node>, p: nat, lv: nat)
    requires WellFormed(a) && WellFormed(b) && a <= b && p < |a| && Tight(a, p, lv)
    ensures Tight(b, p, lv)
    decreases p
  {
    assert b[p] == a[p];
    if a[p].Branch? {
      TightExtends(a, b, a[p].low, lv - 1);
      TightExtends(a, b, a[p].high, lv - 1);
    }
  }

  /** A constant range whose terminal exists builds into that terminal and
      adds nothing. */
  lemma {:induction false} ConstantBuild(a: seq<Node>, st: seq<Complex>, start: nat, lv: nat, v: Complex)
    requires Canonical(a) && Terminal(v) in a && ConstantRange(st, start, lv, v)
    ensures var r := BuildF(a, st, start, lv);
            r.nodes == a && r.node < |a| && a[r.node] == Terminal(v)
    decreases lv
  {
    if lv == 0 {
      assert st[start] == v;
    } else {
      ConstantHalves(st, start, lv, v);
      ConstantBuild(a, st, start, lv - 1, v);
      ConstantBuild(a, st, start + Pow2(lv - 1), lv - 1, v);
      ConstantJoin(a, BuildF(a, st, start, lv - 1), BuildF(a, st, start + Pow2(lv - 1), lv - 1), lv - 1, v);
    }
  }

  lemma ConstantHalves(st: seq<Complex>, start: nat, lv: nat, v: Complex)
    requires lv > 0 && ConstantRange(st, start, lv, v)
    ensures ConstantRange(st, start, lv - 1, v) && ConstantRange(st, start + Pow2(lv - 1), lv - 1, v)
  {
  }

  /** Two halves that are the same terminal combine into it. */
  lemma ConstantJoin(a: seq<Node>, l: Made, h: Made, level: nat, v: Complex)
    requires Distinct(a) && l.nodes == a && h.nodes == a && l.node < |a| && h.node < |a|
    requires a[l.node] == Terminal(v) && a[h.node] == Terminal(v)
    ensures Combine(h.nodes, l.node, h.node, level) == Made(a, l.node)
  {
    DistinctIndex(a, l.node, h.node);
  }

  /** r, built from a, is a GHZ spine of height lv: canonical, grown from a,
      holding the terminal x (and Zero above the leaves), skipping no level,
      and at most k nodes larger than a besides the terminals it added. */
  ghost predicate Spine(a: seq<Node>, r: Made, lv: nat, x: Complex, k: nat) {
    Canonical(r.nodes) && a <= r.nodes && r.node < |r.nodes| &&
    Terminal(x) in r.nodes && (lv > 0 ==> Terminal(Zero) in r.nodes) &&
    |r.nodes| + Missing(r.nodes, x) <= |a| + k + Missing(a, x) &&
    Fits(r.nodes, r.node, lv) && Tight(r.nodes, r.node, lv)
  }

  /** A single amplitude x is a spine of height 0. */
  lemma SpineLeaf(a: seq<Node>, x: Complex)
    requires Canonical(a) && x != Zero
    ensures Spine(a, Intern(a, Terminal(x)), 0, x, 0)
  {
    InternKeeps(a, Terminal(x));
    var r := Intern(a, Terminal(x));
    if Terminal(Zero) in a {
      InPrefix(a, r.nodes, Terminal(Zero));
    }
  }

  /** r, built from b, is the terminal Zero, b grown only by that terminal. */
  ghost predicate ZeroLeaf(b: seq<Node>, r: Made, x: Complex) {
    Canonical(r.nodes) && b <= r.nodes && r.node < |r.nodes| &&
    r.nodes[r.node] == Terminal(Zero) && Terminal(x) in r.nodes &&
    |r.nodes| + Missing(r.nodes, x) <= |b| + Missing(b, x)
  }

  /** A zero range beside a spine, built into an arena b holding x, is the
      terminal Zero, found or appended. */
  lemma ZeroHalf(b: seq<Node>, st: seq<Complex>, start: nat, lv: nat, x: Complex)
    requires Canonical(b) && x != Zero && Terminal(x) in b && ConstantRange(st, start, lv, Zero)
    requires lv > 0 ==> Terminal(Zero) in b
    ensures ZeroLeaf(b, BuildF(b, st, start, lv), x)
  {
    if Terminal(Zero) in b {
      ConstantBuild(b, st, start, lv, Zero);
    } else {
      assert st[start] == Zero;
      InternKeeps(b, Terminal(Zero));
      InPrefix(b, Intern(b, Terminal(Zero)).nodes, Terminal(x));
    }
  }

  /** One level of a spine: a tight node beside a terminal, or two tight
      nodes that differ, combine into a tight node one level up. */
  lemma SpineStep(a: seq<Node>, l: Made, h: Made, lv: nat, x: Complex, k: nat)
    requires lv > 0 && Canonical(l.nodes) && Canonical(h.nodes) && a <= l.nodes && l.nodes <= h.nodes
    requires l.node < |l.nodes| && h.node < |h.nodes| && Fits(l.nodes, l.node, lv - 1)
    requires Tight(l.nodes, l.node, lv - 1) && Tight(h.nodes, h.node, lv - 1)
    requires Terminal(x) in h.nodes && Terminal(Zero) in h.nodes
    requires l.node != h.node || h.nodes[h.node].Terminal?
    requires |h.nodes| + Missing(h.nodes, x) <= |a| + k + Missing(a, x)
    ensures Spine(a, Combine(h.nodes, l.node, h.node, lv - 1), lv, x, k + 1)
  {
    assert h.nodes[l.node] == l.nodes[l.node];
    TightExtends(l.nodes, h.nodes, l.node, lv - 1);
    if l.node != h.node {
      InternKeeps(h.nodes, Branch(lv - 1, l.node, h.node));
      var c := Intern(h.nodes, Branch(lv - 1, l.node, h.node));
      InPrefix(h.nodes, c.nodes, Terminal(x));
      InPrefix(h.nodes, c.nodes, Terminal(Zero));
      TightExtends(h.nodes, c.nodes, l.node, lv - 1);
      TightExtends(h.nodes, c.nodes, h.node, lv - 1);
    }
  }

  /** A spine with a zero range to its right is a spine one level up. */
  lemma LeftStep(a: seq<Node>, l: Made, h: Made, lv: nat, x: Complex)
    requires lv > 0 && Spine(a, l, lv - 1, x, lv - 1) && ZeroLeaf(l.nodes, h, x)
    ensures Spine(a, Combine(h.nodes, l.node, h.node, lv - 1), lv, x, lv)
  {
    assert h.nodes[h.node] == Terminal(Zero);
    assert Terminal(Zero) in h.nodes;
    SpineStep(a, l, h, lv, x, lv - 1);
  }

  /** A zero range with a spine to its right is a spine one level up. */
  lemma RightStep(a: seq<Node>, l: Made, h: Made, lv: nat, x: Complex)
    requires lv > 0 && Canonical(a) && Terminal(Zero) in a
    requires l.nodes == a && l.node < |a| && a[l.node] == Terminal(Zero)
    requires Spine(a, h, lv - 1, x, lv - 1)
    ensures Spine(a, Combine(h.nodes, l.node, h.node, lv - 1), lv, x, lv)
  {
    InPrefix(a, h.nodes, Terminal(Zero));
    assert h.nodes[l.node] == Terminal(Zero);
    SpineStep(a, l, h, lv, x, lv - 1);
  }

  /** x followed by zeros builds a spine: one node per level on top of the
      terminals x and Zero. */
  lemma {:induction false} LeftSpine(a: seq<Node>, st: seq<Complex>, start: nat, lv: nat, x: Complex)
    requires Canonical(a) && x != Zero && SpikeRange(st, start, lv, start, x)
    ensures Spine(a, BuildF(a, st, start, lv), lv, x, lv)
    decreases lv
  {
    if lv == 0 {
      assert st[start] == x;
      SpineLeaf(a, x);
    } else {
      SpikeLeft(st, start, lv, x);
      LeftSpine(a, st, start, lv - 1, x);
      LeftSpineUp(a, st, start, lv, x);
    }
  }

  /** The halves of a range holding x at its start. */
  lemma SpikeLeft(st: seq<Complex>, start: nat, lv: nat, x: Complex)
    requires lv > 0 && SpikeRange(st, start, lv, start, x)
    ensures SpikeRange(st, start, lv - 1, start, x)
    ensures ConstantRange(st, start + Pow2(lv - 1), lv - 1, Zero)
  {
  }

  /** The step of LeftSpine: the spine of the left half and the zeros of
      the right half. */
  lemma LeftSpineUp(a: seq<Node>, st: seq<Complex>, start: nat, lv: nat, x: Complex)
    requires lv > 0 && Canonical(a) && x != Zero && start + Pow2(lv) <= |st|
    requires ConstantRange(st, start + Pow2(lv - 1), lv - 1, Zero)
    requires Spine(a, BuildF(a, st, start, lv - 1), lv - 1, x, lv - 1)
    ensures Spine(a, BuildF(a, st, start, lv), lv, x, lv)
  {
    var half := Pow2(lv - 1);
    var l := BuildF(a, st, start, lv - 1);
    ZeroHalf(l.nodes, st, start + half, lv - 1, x);
    var h := BuildF(l.nodes, st, start + half, lv - 1);
    assert BuildF(a, st, start, lv) == Combine(h.nodes, l.node, h.node, lv - 1);
    LeftStep(a, l, h, lv, x);
  }

  /** Zeros followed by x, over an arena holding both terminals, build a
      spine of one node per level. */
  lemma {:induction false} RightSpine(a: seq<Node>, st: seq<Complex>, start: nat, lv: nat, x: Complex)
    requires Canonical(a) && x != Zero && Terminal(x) in a && Terminal(Zero) in a
    requires SpikeRange(st, start, lv, start + Pow2(lv) - 1, x)
    ensures Spine(a, BuildF(a, st, start, lv), lv, x, lv)
    decreases lv
  {
    if lv == 0 {
      assert st[start] == x;
      SpineLeaf(a, x);
    } else {
      SpikeRight(st, start, lv, x);
      RightSpine(a, st, start + Pow2(lv - 1), lv - 1, x);
      RightSpineUp(a, st, start, lv, x);
    }
  }

  /** The halves of a range holding x at its end. */
  lemma SpikeRight(st: seq<Complex>, start: nat, lv: nat, x: Complex)
    requires lv > 0 && SpikeRange(st, start, lv, start + Pow2(lv) - 1, x)
    ensures Pow2(lv) == 2 * Pow2(lv - 1)
    ensures ConstantRange(st, start, lv - 1, Zero)
    ensures SpikeRange(st, start + Pow2(lv - 1), lv - 1, start + Pow2(lv - 1) + Pow2(lv - 1) - 1, x)
  {
  }

  /** The step of RightSpine: the zeros of the left half and the spine of
      the right half. */
  lemma RightSpineUp(a: seq<Node>, st: seq<Complex>, start: nat, lv: nat, x: Complex)
    requires lv > 0 && Canonical(a) && x != Zero && Terminal(Zero) in a && start + Pow2(lv) <= |st|
    requires ConstantRange(st, start, lv - 1, Zero)
    requires Spine(a, BuildF(a, st, start + Pow2(lv - 1), lv - 1), lv - 1, x, lv - 1)
    ensures Spine(a, BuildF(a, st, start, lv), lv, x, lv)
  {
    ConstantBuild(a, st, start, lv - 1, Zero);
    BuildUnfold(a, st, start, lv);
    RightStep(a, BuildF(a, st, start, lv - 1), BuildF(a, st, start + Pow2(lv - 1), lv - 1), lv, x);
  }

  lemma {:induction false} Log2Pow2(k: nat)
    ensures PowerOfTwo(Pow2(k)) && Log2(Pow2(k)) == k
  {
    if k > 0 {
      Log2Pow2(k - 1);
      assert Pow2(k) / 2 == Pow2(k - 1);
    }
  }

  /** The GHZ state on n >= 2 qubits builds a diagram of at most 2n + 1 nodes
      that skips no level, so `fill` gives the state back. */
  lemma GhzDiagram(n: nat, x: Complex)
    requires n >= 2 && x != Zero
    ensures var r := BuildF([], Ghz(n, x), 0, n);
            WellFormed(r.nodes) && r.node < |r.nodes| && |r.nodes| <= 2 * n + 1 &&
            Tight(r.nodes, r.node, n) && Filled(r.nodes, r.node, Pow2(n)) == Ghz(n, x)
  {
    var st := Ghz(n, x);
    assert Pow2(n) == 2 * Pow2(n - 1) && Pow2(n - 1) >= 2 by {
      assert Pow2(n - 1) == 2 * Pow2(n - 2);
    }
    assert SpikeRange(st, 0, n - 1, 0, x);
    assert SpikeRange(st, Pow2(n - 1), n - 1, Pow2(n) - 1, x);
    GhzTight(st, n, x);
    GhzFill(st, n, x);
  }

  /** A vector of 2^n amplitudes whose halves are x over zeros and zeros
      over x builds a tight diagram of at most 2n + 1 nodes. */
  lemma GhzTight(st: seq<Complex>, n: nat, x: Complex)
    requires n >= 2 && x != Zero && |st| == Pow2(n) && Pow2(n) == 2 * Pow2(n - 1)
    requires SpikeRange(st, 0, n - 1, 0, x) && SpikeRange(st, Pow2(n - 1), n - 1, Pow2(n) - 1, x)
    ensures var r := BuildF([], st, 0, n);
            WellFormed(r.nodes) && r.node < |r.nodes| && |r.nodes| <= 2 * n + 1 && Tight(r.nodes, r.node, n)
  {
    var half := Pow2(n - 1);
    LeftSpine([], st, 0, n - 1, x);
    var l := BuildF([], st, 0, n - 1);
    RightSpine(l.nodes, st, half, n - 1, x);
    var h := BuildF(l.nodes, st, half, n - 1);
    assert st[0] == x && st[half] == Zero;
    GhzHalvesDiffer(st, n);
    BuildUnfold([], st, 0, n);
    TopStep(l, h, n, x);
  }

  /** The two halves of a GHZ state differ at their first amplitude, so
      `build` cannot share one node between them. */
  lemma GhzHalvesDiffer(st: seq<Complex>, n: nat)
    requires n >= 1 && |st| == Pow2(n) && Pow2(n) == 2 * Pow2(n - 1) && st[0] != st[Pow2(n - 1)]
    ensures var l := BuildF([], st, 0, n - 1);
            l.node != BuildF(l.nodes, st, Pow2(n - 1), n - 1).node
  {
    BuildSound([], st, 0, n - 1);
    var l := BuildF([], st, 0, n - 1);
    BuildSound(l.nodes, st, Pow2(n - 1), n - 1);
    SoundHalvesDiffer([], l, BuildF(l.nodes, st, Pow2(n - 1), n - 1), st, 0, n - 1);
  }

  /** The root of a GHZ diagram: two different spines of height n - 1, the
      second built on top of the first, combine into a tight node, and the
      arena holds at most 2n + 1 nodes. */
  lemma TopStep(l: Made, h: Made, n: nat, x: Complex)
    requires n >= 2 && Spine([], l, n - 1, x, n - 1) && Spine(l.nodes, h, n - 1, x, n - 1)
    requires l.node != h.node
    ensures var c := Combine(h.nodes, l.node, h.node, n - 1);
            WellFormed(c.nodes) && c.node < |c.nodes| && |c.nodes| <= 2 * n + 1 && Tight(c.nodes, c.node, n)
  {
    assert h.nodes[l.node] == l.nodes[l.node];
    SpineStep([], l, h, n, x, 2 * n - 2);
  }

  /** Sound halves whose ranges start with different amplitudes are
      different nodes. */
  lemma SoundHalvesDiffer(a: seq<Node>, l: Made, h: Made, st: seq<Complex>, start: nat, lv: nat)
    requires Sound(a, l, st, start, lv) && Sound(l.nodes, h, st, start + Pow2(lv), lv)
    requires st[start] != st[start + Pow2(lv)]
    ensures l.node != h.node
  {
    var half := Pow2(lv);
    MeaningExtends(l.nodes, h.nodes, l.node, lv, st[start..start + half]);
    SlicesDiffer(st, start, start + half, half);
  }

  /** Slices that differ at their first element differ. */
  lemma SlicesDiffer<T>(st: seq<T>, i: nat, j: nat, len: nat)
    requires 0 < len && i + len <= |st| && j + len <= |st| && st[i] != st[j]
    ensures st[i..i + len] != st[j..j + len]
  {
    assert st[i..i + len][0] == st[i];
  }

  /** A tight diagram built from the GHZ state fills back into the state. */
  lemma GhzFill(st: seq<Complex>, n: nat, x: Complex)
    requires st == Ghz(n, x)
    requires var r := BuildF([], st, 0, n); WellFormed(r.nodes) && r.node < |r.nodes| && Tight(r.nodes, r.node, n)
    ensures var r := BuildF([], st, 0, n); Filled(r.nodes, r.node, Pow2(n)) == st
  {
    BuildSound([], st, 0, n);
    var r := BuildF([], st, 0, n);
    TightFillIsExpanded(r.nodes, r.node, n);
    assert st[0..Pow2(n)] == st;
  }

  // ---------------------------------------------------------------------------
  // Writing ranges of an output vector

  /** Patching a whole sequence replaces it. */
  lemma PatchWhole<T>(s: seq<T>, x: seq<T>)
    requires |x| == |s|
    ensures Patch(s, 0, x) == x
  {
    assert s[..0] + x + s[|x|..] == x;
  }

  /** Patching x and then y right after it is patching x + y. */
  lemma PatchJoin<T>(s: seq<T>, start: nat, mid: nat, x: seq<T>, y: seq<T>)
    requires mid == start + |x| && mid + |y| <= |s|
    ensures Patch(Patch(s, start, x), mid, y) == Patch(s, start, x + y)
  {
    var p := Patch(s, start, x);
    assert p[..start + |x|] == s[..start] + x;
    assert p[start + |x| + |y|..] == s[start + |x| + |y|..];
  }

  /** Writing slot start + |x| extends the patch by that one value. */
  lemma PatchExtend<T>(s: seq<T>, start: nat, x: seq<T>, v: T)
    requires start + |x| < |s|
    ensures Patch(s, start, x)[start + |x| := v] == Patch(s, start, x + [v])
  {
  }

  // ---------------------------------------------------------------------------
  // The hash tables

  /** `term_table` and `unique_table` are exact indexes of the arena: a value
      or key is in its table exactly when a node with those contents is in
      the arena, and the entry is the index of that node. */
  ghost predicate IndexedBy(nodes: seq<Node>, terms: map<Complex, nat>, unique: map<NodeKey, nat>) {
    (forall v :: v in terms <==> Terminal(v) in nodes) &&
    (forall v :: v in terms ==> terms[v] < |nodes| && nodes[terms[v]] == Terminal(v)) &&
    (forall k :: k in unique <==> Branch(k.level, k.low, k.high) in nodes) &&
    (forall k :: k in unique ==> unique[k] < |nodes| && nodes[unique[k]] == Branch(k.level, k.low, k.high))
  }

  /** Appending a new terminal and entering it in `term_table` keeps both
      tables exact. */
  lemma AddTerminal(nodes: seq<Node>, terms: map<Complex, nat>, unique: map<NodeKey, nat>, v: Complex)
    requires IndexedBy(nodes, terms, unique) && v !in terms
    ensures IndexedBy(nodes + [Terminal(v)], terms[v := |nodes|], unique)
  {
    var nodes' := nodes + [Terminal(v)];
    assert forall n :: n in nodes' <==> n in nodes || n == Terminal(v);
    assert forall i :: 0 <= i < |nodes| ==> nodes'[i] == nodes[i];
  }

  /** Appending a new internal node and entering it in `unique_table` keeps
      both tables exact. */
  lemma AddBranch(nodes: seq<Node>, terms: map<Complex, nat>, unique: map<NodeKey, nat>, key: NodeKey)
    requires IndexedBy(nodes, terms, unique) && key !in unique
    ensures IndexedBy(nodes + [Branch(key.level, key.low, key.high)], terms, unique[key := |nodes|])
  {
    var n := Branch(key.level, key.low, key.high);
    var nodes' := nodes + [n];
    assert forall m :: m in nodes' <==> m in nodes || m == n;
    assert forall i :: 0 <= i < |nodes| ==> nodes'[i] == nodes[i];
  }

  // ---------------------------------------------------------------------------
  // The class

  class QuIDD {
    var nodes: seq<Node>
    var unique: map<NodeKey, nat>
    var terms: map<Complex, nat>
    var root: nat
    var qubits: nat

    /** The two tables are exact indexes of the arena. */
    ghost predicate Indexed()
      reads this
    {
      IndexedBy(nodes, terms, unique)
    }

    ghost predicate Valid()
      reads this
    {
      Indexed() && Canonical(nodes) && root < |nodes| && Fits(nodes, root, qubits)
    }

    /** `make_terminal(val)`. */
    method MakeTerminal(v: Complex) returns (p: nat)
      requires Indexed() && Distinct(nodes)
      modifies this
      ensures Made(nodes, p) == Intern(old(nodes), Terminal(v))
      ensures Indexed() && Distinct(nodes)
      ensures unique == old(unique) && root == old(root) && qubits == old(qubits)
    {
      InternKeeps(nodes, Terminal(v));
      if v in terms {
        p := terms[v];
        FindDistinct(nodes, p);
      } else {
        p := |nodes|;
        AddTerminal(nodes, terms, unique, v);
        nodes, terms := nodes + [Terminal(v)], terms[v := p];
      }
    }

    /** `make_node(var, low, high)`. */
    method MakeNode(level: nat, low: nat, high: nat) returns (p: nat)
      requires Indexed() && Distinct(nodes)
      modifies this
      ensures Made(nodes, p) == Intern(old(nodes), Branch(level, low, high))
      ensures Indexed() && Distinct(nodes)
      ensures terms == old(terms) && root == old(root) && qubits == old(qubits)
    {
      InternKeeps(nodes, Branch(level, low, high));
      var key := NodeKey(level, low, high);
      if key in unique {
        p := unique[key];
        FindDistinct(nodes, p);
      } else {
        p := |nodes|;
        AddBranch(nodes, terms, unique, key);
        nodes, unique := nodes + [Branch(level, low, high)], unique[key := p];
      }
    }

    /** `build`: the source asserts a single element at level 0, which holds
        on every call exactly when the range has 2^level elements. */
    method Build(st: seq<Complex>, start: nat, end: nat, level: nat) returns (p: nat)
      requires start <= end <= |st| && end - start == Pow2(level)
      requires Indexed() && Distinct(nodes)
      modifies this
      ensures Made(nodes, p) == BuildF(old(nodes), st, start, level)
      ensures Indexed() && Distinct(nodes)
      ensures root == old(root) && qubits == old(qubits)
      decreases level
    {
      if level == 0 {
        p := MakeTerminal(st[start]);
        return;
      }
      var mid := start + (end - start) / 2;
      assert mid == start + Pow2(level - 1);
      var low := Build(st, start, mid, level - 1);
      var high := Build(st, mid, end, level - 1);
      if low == high {
        return low;
      }
      p := MakeNode(level - 1, low, high);
    }

    /** `QuIDD(state)`: `qubits` becomes the least q with 2^q >= size, then the
        whole vector is built. */
    constructor (state: seq<Complex>)
      requires PowerOfTwo(|state|)
      ensures Valid()
      ensures Pow2(qubits) == |state| && qubits == Log2(|state|)
      ensures Made(nodes, root) == BuildF([], state, 0, qubits)
      ensures Expanded(nodes, root, qubits) == state
      ensures |nodes| <= 2 * |state| - 1
    {
      nodes := [];
      unique := map[];
      terms := map[];
      root := 0;
      var q := 0;
      var size := |state|;
      ghost var k := Log2(size);
      while Pow2(q) < size
        invariant q <= k
        decreases k - q
      {
        if q == k {
          assert false;
        }
        q := q + 1;
      }
      if q < k {
        Pow2Monotone(q + 1, k);
      }
      qubits := q;
      new;
      root := Build(state, 0, size, q);
      ConstructionSound(state);
    }

    /** Sets out[start..end] to v, as the terminal case of `fill` does. */
    static method Broadcast(v: Complex, start: nat, end: nat, out: array<Complex>)
      requires start <= end <= out.Length
      modifies out
      ensures out[..] == Patch(old(out[..]), start, Repeat(v, end - start))
    {
      var i := start;
      while i < end
        invariant start <= i <= end
        invariant out[..] == Patch(old(out[..]), start, Repeat(v, i - start))
      {
        PatchExtend(old(out[..]), start, Repeat(v, i - start), v);
        assert Repeat(v, i - start) + [v] == Repeat(v, i + 1 - start);
        out[i] := v;
        i := i + 1;
      }
    }

    /** `to_vector`: a zero vector of 2^qubits amplitudes, filled from the root. */
    method ToVector() returns (out: array<Complex>)
      requires Valid()
      ensures fresh(out) && out[..] == Filled(nodes, root, Pow2(qubits))
    {
      out := new Complex[Pow2(qubits)](_ => Zero);
      ghost var s := out[..];
      Fill(root, 0, out.Length, out);
      PatchWhole(s, Filled(nodes, root, Pow2(qubits)));
    }

    /** `fill(node, start, end, out)`. */
    method Fill(p: nat, start: nat, end: nat, out: array<Complex>)
      requires WellFormed(nodes) && p < |nodes| && start <= end <= out.Length
      modifies out
      ensures out[..] == Patch(old(out[..]), start, Filled(nodes, p, end - start))
      decreases p
    {
      match nodes[p]
      case Terminal(v) =>
        Broadcast(v, start, end, out);
      case Branch(_, lo, hi) =>
        var mid := start + (end - start) / 2;
        ghost var s := out[..];
        Fill(lo, start, mid, out);
        Fill(hi, mid, end, out);
        PatchJoin(s, start, mid, Filled(nodes, lo, mid - start), Filled(nodes, hi, end - mid));
    }

    /** `to_vector` with the expansion descending one level at a time, so that
        a shared node standing for a skipped level is repeated over both halves. */
    method ToVectorByLevel() returns (out: array<Complex>)
      requires Valid()
      ensures fresh(out) && out[..] == Expanded(nodes, root, qubits)
    {
      out := new Complex[Pow2(qubits)](_ => Zero);
      ghost var s := out[..];
      FillLevel(root, 0, qubits, out);
      PatchWhole(s, Expanded(nodes, root, qubits));
    }

    /** Write the meaning of node p as a range of 2^lv amplitudes from `start`. */
    method FillLevel(p: nat, start: nat, lv: nat, out: array<Complex>)
      requires WellFormed(nodes) && p < |nodes| && start + Pow2(lv) <= out.Length
      modifies out
      ensures out[..] == Patch(old(out[..]), start, Expanded(nodes, p, lv))
      decreases lv, p, 1
    {
      var n := nodes[p];
      if n.Terminal? {
        Broadcast(n.value, start, start + Pow2(lv), out);
        ExpandLeaf(nodes, p, lv);
      } else if lv <= n.level {
        FillLevel(n.low, start, lv, out);
        ExpandAbove(nodes, p, lv);
      } else {
        FillHalves(p, start, lv, out);
      }
    }

    /** FillLevel for a node that splits the range: both halves in turn. */
    method FillHalves(p: nat, start: nat, lv: nat, out: array<Complex>)
      requires WellFormed(nodes) && p < |nodes| && start + Pow2(lv) <= out.Length
      requires nodes[p].Branch? && nodes[p].level < lv
      modifies out
      ensures out[..] == Patch(old(out[..]), start, Expanded(nodes, p, lv))
      decreases lv, p, 0
    {
      ghost var s := out[..];
      var n := nodes[p];
      var half := Pow2(lv - 1);
      var lo, hi := if n.level + 1 < lv then p else n.low, if n.level + 1 < lv then p else n.high;
      FillLevel(lo, start, lv - 1, out);
      FillLevel(hi, start + half, lv - 1, out);
      PatchJoin(s, start, start + half, Expanded(nodes, lo, lv - 1), Expanded(nodes, hi, lv - 1));
      ExpandHalves(nodes, p, lv, lo, hi);
    }

    /** `node_count`: with the tables consulted on every construction, each
        structure is stored once, so the count is the number of different
        structures, and the root is among them. */
    function NodeCount(): (r: nat)
      reads this
      ensures Distinct(nodes) ==> r == |Structures(nodes)|
      ensures Valid() ==> root < r
    {
      DistinctStructures(nodes);
      |nodes|
    }

    /** `memory_bytes`: one `sizeof(Node)` per arena node, that is per
        different structure; a valid diagram holds at least its root. */
    function MemoryBytes(): (r: nat)
      reads this
      ensures Distinct(nodes) ==> r == |Structures(nodes)| * NodeBytes
      ensures Valid() ==> NodeBytes <= r
    {
      NodeCount() * NodeBytes
    }
  }

  /** A GHZ state of n >= 6 qubits, held as a diagram, takes fewer bytes than
      its dense vector of 2^n amplitudes. */
  lemma {:induction false} GhzSmaller(n: nat)
    requires n >= 6
    ensures (2 * n + 1) * NodeBytes < Pow2(n) * ComplexBytes
  {
    if n == 6 {
      assert Pow2(6) == 64 by {
        assert Pow2(1) == 2 && Pow2(2) == 4 && Pow2(3) == 8 && Pow2(4) == 16 && Pow2(5) == 32;
      }
    } else {
      GhzSmaller(n - 1);
      Pow2Monotone(3, n - 1);
      assert Pow2(3) == 8 by {
        assert Pow2(1) == 2 && Pow2(2) == 4;
      }
    }
  }

  /** The conversion test: the diagram of a GHZ state converts back into
      exactly that state and takes fewer bytes than the dense vector. */
  method GhzConversion(n: nat, x: Complex) returns (dd: QuIDD, vec: array<Complex>)
    requires n >= 6 && x != Zero
    ensures vec.Length == Pow2(n) && vec[..] == Ghz(n, x)
    ensures dd.MemoryBytes() < vec.Length * ComplexBytes
  {
    var state := Ghz(n, x);
    Log2Pow2(n);
    dd := new QuIDD(state);
    GhzDiagram(n, x);
    vec := dd.ToVector();
    GhzSmaller(n);
  }
}

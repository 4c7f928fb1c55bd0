/** `execute_partitions` of runtime/partitioner.cpp: one dense state per
    separable region, every gate replayed on the state of its region at the
    qubit's position inside that region, and the regions recombined by
    Kronecker products in partition order. The runtime's exceptions
    (`std::stoul`, `loc.at`) are the None results. */
module PartitionedExecution {
  import opened ComplexNumbers
  import opened Bits
  import opened Wrappers
  import opened GateKernels
  import opened PairSwaps
  import opened OpDecoding
  import opened Grouping
  import opened Connectivity
  import opened Separability
  import opened Partitioner
  import opened DenseWavefunction

  /** `sizeof(std::complex<double>)`: the regions are `Wavefunction<double>`. */
  const ElemBytes: nat := 16

  // ---------------------------------------------------------------------------
  // tensor_product

  lemma MulMono(x: nat, y: nat, m: nat)
    ensures x <= y ==> x * m <= y * m
  {
    if x <= y {
      var d := y - x;
      assert y * m == x * m + d * m;
    }
  }

  /** Index k of an |n| x |m| row-major layout splits into row k / m and column k % m. */
  lemma RowMajorSplit(n: nat, m: nat, k: nat)
    requires k < n * m
    ensures m > 0 && k / m < n && k % m < m && k == (k / m) * m + k % m
  {
    assert m == 0 ==> n * m == 0;
    var q := k / m;
    MulMono(n, q, m);
  }

  /** Row i, column j of an n x m row-major layout is index i * m + j. */
  lemma RowMajor(n: nat, m: nat, i: nat, j: nat)
    requires i < n && j < m
    ensures i * m + j < n * m && (i * m + j) / m == i && (i * m + j) % m == j
  {
    MulMono(i + 1, n, m);
    assert (i + 1) * m == i * m + m;
    DivModUnique(i * m + j, m, i, j);
  }

  /** Euclidean division has one quotient and one remainder. */
  lemma DivModUnique(k: nat, m: nat, q: nat, r: nat)
    requires m > 0 && k == q * m + r && r < m
    ensures k / m == q && k % m == r
  {
    var q', r' := k / m, k % m;
    assert k == q' * m + r' && r' < m;
    assert (q + 1) * m == q * m + m;
    assert (q' + 1) * m == q' * m + m;
    MulMono(q + 1, q', m);
    MulMono(q' + 1, q, m);
  }

  /** Entry k of the product: a's entry in row k / |b| times b's in column k % |b|. */
  function TensorEntry(a: seq<Complex>, b: seq<Complex>, k: nat): Complex
    requires k < |a| * |b|
  {
    RowMajorSplit(|a|, |b|, k);
    Mul(a[k / |b|], b[k % |b|])
  }

  /** The Kronecker product of two amplitude vectors. */
  function Tensor(a: seq<Complex>, b: seq<Complex>): (r: seq<Complex>)
    ensures |r| == |a| * |b|
  {
    seq(|a| * |b|, k requires 0 <= k < |a| * |b| => TensorEntry(a, b, k))
  }

  /** `res[i*b.size()+j] = a[i]*b[j]`: the product pairs every entry of a with
      every entry of b, a's index in the high part. */
  lemma TensorAt(a: seq<Complex>, b: seq<Complex>, i: nat, j: nat)
    requires i < |a| && j < |b|
    ensures i * |b| + j < |Tensor(a, b)| && Tensor(a, b)[i * |b| + j] == Mul(a[i], b[j])
  {
    RowMajor(|a|, |b|, i, j);
  }

  /** `tensor_product`: the two nested loops fill `res` in row-major order. */
  method TensorProduct(a: seq<Complex>, b: seq<Complex>) returns (r: seq<Complex>)
    ensures r == Tensor(a, b)
  {
    var res := new Complex[|a| * |b|](_ => Zero);
    var i := 0;
    while i < |a|
      invariant i <= |a|
      invariant forall k :: 0 <= k < i * |b| ==> res[k] == Tensor(a, b)[k]
    {
      FillRow(res, a, b, i);
      i := i + 1;
    }
    r := res[..];
  }

  /** The inner loop of `tensor_product`: row i of the product. */
  method FillRow(res: array<Complex>, a: seq<Complex>, b: seq<Complex>, i: nat)
    requires res.Length == |a| * |b| && i < |a|
    requires forall k :: 0 <= k < i * |b| ==> res[k] == Tensor(a, b)[k]
    modifies res
    ensures forall k :: 0 <= k < (i + 1) * |b| ==> res[k] == Tensor(a, b)[k]
  {
    ghost var T := Tensor(a, b);
    var m := |b|;
    var base := i * m;
    assert base + m == (i + 1) * m;
    var j := 0;
    while j < m
      invariant j <= m
      invariant forall k :: 0 <= k < base + j ==> res[k] == T[k]
    {
      TensorAt(a, b, i, j);
      res[base + j] := Mul(a[i], b[j]);
      j := j + 1;
    }
  }

  /** [One] is the unit of the product on both sides. */
  lemma TensorOne(w: seq<Complex>)
    ensures Tensor([One], w) == w && Tensor(w, [One]) == w
  {
    var l, r := Tensor([One], w), Tensor(w, [One]);
    forall j | 0 <= j < |w|
      ensures l[j] == w[j] && r[j] == w[j]
    {
      TensorAt([One], w, 0, j);
      TensorAt(w, [One], j, 0);
      MulOneLeft(w[j]);
      MulComm(w[j], One);
    }
  }

  /** The product is associative, so the recombination order only fixes which
      region takes which bits. */
  lemma TensorAssoc(a: seq<Complex>, b: seq<Complex>, c: seq<Complex>)
    ensures Tensor(Tensor(a, b), c) == Tensor(a, Tensor(b, c))
  {
    var l, r := Tensor(Tensor(a, b), c), Tensor(a, Tensor(b, c));
    assert |a| * |b| * |c| == |a| * (|b| * |c|);
    forall k | 0 <= k < |l|
      ensures l[k] == r[k]
    {
      TensorAssocAt(a, b, c, k);
    }
  }

  lemma TensorAssocAt(a: seq<Complex>, b: seq<Complex>, c: seq<Complex>, k: nat)
    requires k < |a| * |b| * |c| && |a| * |b| * |c| == |a| * (|b| * |c|)
    ensures Tensor(Tensor(a, b), c)[k] == Tensor(a, Tensor(b, c))[k]
  {
    var nb, nc := |b|, |c|;
    var ab, bc := Tensor(a, b), Tensor(b, c);
    RowMajorSplit(|a| * nb, nc, k);
    var q, z := k / nc, k % nc;
    RowMajorSplit(|a|, nb, q);
    var x, y := q / nb, q % nb;
    TensorAt(ab, c, q, z);
    TensorAt(a, b, x, y);
    assert Tensor(ab, c)[k] == Mul(Mul(a[x], b[y]), c[z]);
    TensorAt(b, c, y, z);
    var w := y * nc + z;
    TensorAt(a, bc, x, w);
    Regroup3(x, y, z, nb, nc);
    assert k == x * |bc| + w;
    assert Tensor(a, bc)[k] == Mul(a[x], Mul(b[y], c[z]));
    MulAssoc(a[x], b[y], c[z]);
  }

  lemma Regroup3(x: nat, y: nat, z: nat, nb: nat, nc: nat)
    ensures (x * nb + y) * nc + z == x * (nb * nc) + (y * nc + z)
  {
  }

  /** The recombination: `state = {1}`, then `state = tensor_product(state, wf.state)`
      for the regions in order. */
  function TensorAll(ws: seq<seq<Complex>>): seq<Complex> {
    if |ws| == 0 then [One] else Tensor(TensorAll(ws[..|ws| - 1]), ws[|ws| - 1])
  }

  /** Folding from the left equals the product of the first region with the
      rest. */
  lemma {:induction false} TensorAllCons(w: seq<Complex>, rest: seq<seq<Complex>>)
    ensures TensorAll([w] + rest) == Tensor(w, TensorAll(rest))
  {
    var ws := [w] + rest;
    if |rest| == 0 {
      assert ws[..0] == [];
      TensorOne(w);
    } else {
      var n := |rest| - 1;
      assert ws[..|ws| - 1] == [w] + rest[..n];
      TensorAllCons(w, rest[..n]);
      TensorAssoc(w, TensorAll(rest[..n]), rest[n]);
    }
  }

  /** The first region occupies the most significant part of the index: entry
      i * |rest| + j of the recombined state is entry i of the first region times
      entry j of the product of the others. */
  lemma FirstMostSignificant(ws: seq<seq<Complex>>, i: nat, j: nat)
    requires |ws| > 0 && i < |ws[0]| && j < |TensorAll(ws[1..])|
    ensures i * |TensorAll(ws[1..])| + j < |TensorAll(ws)|
    ensures TensorAll(ws)[i * |TensorAll(ws[1..])| + j] == Mul(ws[0][i], TensorAll(ws[1..])[j])
  {
    assert ws == [ws[0]] + ws[1..];
    TensorAllCons(ws[0], ws[1..]);
    TensorAt(ws[0], TensorAll(ws[1..]), i, j);
  }

  /** The last region occupies the least significant part of the index. */
  lemma LastLeastSignificant(ws: seq<seq<Complex>>, i: nat, j: nat)
    requires |ws| > 0 && i < |TensorAll(ws[..|ws| - 1])| && j < |ws[|ws| - 1]|
    ensures i * |ws[|ws| - 1]| + j < |TensorAll(ws)|
    ensures TensorAll(ws)[i * |ws[|ws| - 1]| + j] == Mul(TensorAll(ws[..|ws| - 1])[i], ws[|ws| - 1][j])
  {
    TensorAt(TensorAll(ws[..|ws| - 1]), ws[|ws| - 1], i, j);
  }

  /** Regions of 2^n_p amplitudes recombine into 2^(n_0 + n_1 + ...) amplitudes. */
  lemma {:induction false} TensorAllLength<T>(ws: seq<seq<Complex>>, parts: seq<seq<T>>)
    requires |ws| == |parts| && forall p :: 0 <= p < |ws| ==> |ws[p]| == Pow2(|parts[p]|)
    ensures |TensorAll(ws)| == Pow2(TotalSize(parts))
  {
    if |ws| > 0 {
      var n := |ws| - 1;
      TensorAllLength(ws[..n], parts[..n]);
      Pow2Add(TotalSize(parts[..n]), |parts[n]|);
    }
  }

  // ---------------------------------------------------------------------------
  // loc: where each qubit lives

  /** The inner loop `loc[parts[p][i]] = {p, i}` for the first i qubits of one
      partition. */
  function LocRow(m: map<QubitRef, (nat, nat)>, part: seq<QubitRef>, p: nat, i: nat): (r: map<QubitRef, (nat, nat)>)
    requires i <= |part|
    ensures forall q :: q in r <==> q in m || q in part[..i]
    ensures forall q :: q in r && q !in part[..i] ==> r[q] == m[q]
    ensures forall q :: q in part[..i] ==> r[q].0 == p && r[q].1 < i && part[r[q].1] == q
  {
    if i == 0 then m
    else
      var r0 := LocRow(m, part, p, i - 1);
      assert part[..i] == part[..i - 1] + [part[i - 1]];
      r0[part[i - 1] := (p, i - 1)]
  }

  /** `loc` once the partitions below p have been entered: every qubit of them
      maps to its partition and its position there. */
  function LocUpTo(parts: seq<seq<QubitRef>>, p: nat): (r: map<QubitRef, (nat, nat)>)
    requires p <= |parts|
    ensures forall q :: q in r ==> r[q].0 < p && r[q].1 < |parts[r[q].0]| && parts[r[q].0][r[q].1] == q
    ensures forall k, j :: 0 <= k < p && 0 <= j < |parts[k]| ==> parts[k][j] in r
  {
    if p == 0 then map[]
    else
      var part := parts[p - 1];
      assert part[..|part|] == part;
      LocRow(LocUpTo(parts, p - 1), part, p - 1, |part|)
  }

  /** Every entry of loc names a partition and a position inside it. */
  predicate Located(loc: map<QubitRef, (nat, nat)>, parts: seq<seq<QubitRef>>) {
    forall q :: q in loc ==> loc[q].0 < |parts| && loc[q].1 < |parts[loc[q].0]|
  }

  // ---------------------------------------------------------------------------
  // The gates on one region's amplitudes

  /** A region's vector is empty (disk-backed) or holds all 2^n amplitudes of
      its n qubits. */
  predicate Fits(ws: seq<seq<Complex>>, parts: seq<seq<QubitRef>>) {
    |ws| == |parts| && forall p :: 0 <= p < |ws| ==> |ws[p]| == 0 || |ws[p]| == Pow2(|parts[p]|)
  }

  /** The permutation gates stay inside a region's vector on qubits of the region. */
  lemma RegionBounds(len: nat, n: nat, a: nat, b: nat, c: nat)
    requires len == 0 || len == Pow2(n)
    requires a < n && b < n && c < n
    ensures InBounds(CnotPairs(a, b), len) && InBounds(SwapPairs(a, b), len) && InBounds(CcnotPairs(a, b, c), len)
  {
    if len > 0 {
      CnotBounds(n, a, b);
      SwapBounds(n, a, b);
      CcnotBounds(n, a, b, c);
    }
  }

  /** `wf.apply_h(idx)` ... `wf.apply_t(idx)` on a region of n qubits. */
  function SingleOn(s: seq<Complex>, n: nat, name: string, q: nat, k: Constants): (r: seq<Complex>)
    requires |s| == 0 || |s| == Pow2(n)
    requires q < n
    ensures |r| == |s|
  {
    RegisterPairable(|s|, n, q);
    Kernel(s, q, GateMatrix(name, k))
  }

  /** `apply_cnot(a, b)`, `apply_cz(a, b)` or `apply_swap(a, b)` on a region. */
  function PairOn(s: seq<Complex>, n: nat, name: string, a: nat, b: nat): (r: seq<Complex>)
    requires |s| == 0 || |s| == Pow2(n)
    requires IsPairGate(name) && a < n && b < n
    ensures |r| == |s|
  {
    RegionBounds(|s|, n, a, b, a);
    if name == "CNOT" then Permuted(s, CnotPairs(a, b))
    else if name == "CZ" then CzApplied(s, a, b)
    else Permuted(s, SwapPairs(a, b))
  }

  /** `apply_ccnot(a, b, c)` on a region. */
  function CcxOn(s: seq<Complex>, n: nat, a: nat, b: nat, c: nat): (r: seq<Complex>)
    requires |s| == 0 || |s| == Pow2(n)
    requires a < n && b < n && c < n
    ensures |r| == |s|
  {
    RegionBounds(|s|, n, a, b, c);
    Permuted(s, CcnotPairs(a, b, c))
  }

  /** The gates keep every region's vector length. */
  predicate SameShape(ws: seq<seq<Complex>>, ws': seq<seq<Complex>>) {
    |ws'| == |ws| && forall p :: 0 <= p < |ws| ==> |ws'[p]| == |ws[p]|
  }

  /** The single-qubit branch reads `op[1]` and `op[2]` whatever the length of
      the operation: callers must supply both. */
  predicate ReadsOperand(op: seq<string>) {
    |op| > 0 && IsSingleGate(op[0]) ==> |op| >= 3
  }

  // ---------------------------------------------------------------------------
  // The replay loop on values

  /** One pass of the replay loop: None where a `stoul` or a `loc.at` throws;
      a multi-qubit gate whose operands lie in different regions is skipped. */
  function ReplayOp(ws: seq<seq<Complex>>, parts: seq<seq<QubitRef>>, loc: map<QubitRef, (nat, nat)>,
                    op: seq<string>, k: Constants): (r: Option<seq<seq<Complex>>>)
    requires Fits(ws, parts) && Located(loc, parts) && ReadsOperand(op)
    ensures r.Some? ==> Fits(r.value, parts) && SameShape(ws, r.value)
  {
    if |op| == 0 then Some(ws)
    else if IsSingleGate(op[0]) then
      match Stoul(op[2])
      case None => None
      case Some(i) =>
        var q := QubitRef(op[1], i);
        if q !in loc then None
        else
          var p := loc[q].0;
          Some(ws[p := SingleOn(ws[p], |parts[p]|, op[0], loc[q].1, k)])
    else if IsPairGate(op[0]) && |op| == 5 then
      match Operands(op, 2)
      case None => None
      case Some(qs) =>
        if qs[0] !in loc || qs[1] !in loc then None
        else if loc[qs[0]].0 != loc[qs[1]].0 then Some(ws)
        else
          var p := loc[qs[0]].0;
          Some(ws[p := PairOn(ws[p], |parts[p]|, op[0], loc[qs[0]].1, loc[qs[1]].1)])
    else if op[0] == "CCX" && |op| == 7 then
      match Operands(op, 3)
      case None => None
      case Some(qs) =>
        if qs[0] !in loc || qs[1] !in loc || qs[2] !in loc then None
        else if loc[qs[0]].0 != loc[qs[1]].0 || loc[qs[0]].0 != loc[qs[2]].0 then Some(ws)
        else
          var p := loc[qs[0]].0;
          Some(ws[p := CcxOn(ws[p], |parts[p]|, loc[qs[0]].1, loc[qs[1]].1, loc[qs[2]].1)])
    else Some(ws)
  }

  /** The replay loop over a list of operations; it stops at the first throw. */
  function Replay(ws: seq<seq<Complex>>, parts: seq<seq<QubitRef>>, loc: map<QubitRef, (nat, nat)>,
                  ops: seq<seq<string>>, k: Constants): (r: Option<seq<seq<Complex>>>)
    requires Fits(ws, parts) && Located(loc, parts)
    requires forall t :: 0 <= t < |ops| ==> ReadsOperand(ops[t])
    ensures r.Some? ==> Fits(r.value, parts) && SameShape(ws, r.value)
  {
    if |ops| == 0 then Some(ws)
    else
      match Replay(ws, parts, loc, ops[..|ops| - 1], k)
      case None => None
      case Some(ws') => ReplayOp(ws', parts, loc, ops[|ops| - 1], k)
  }

  /** One more operation of the list. */
  lemma ReplaySnoc(ws: seq<seq<Complex>>, parts: seq<seq<QubitRef>>, loc: map<QubitRef, (nat, nat)>,
                   ops: seq<seq<string>>, t: nat, k: Constants)
    requires Fits(ws, parts) && Located(loc, parts)
    requires forall u :: 0 <= u < |ops| ==> ReadsOperand(ops[u])
    requires t < |ops| && Replay(ws, parts, loc, ops[..t], k).Some?
    ensures Replay(ws, parts, loc, ops[..t + 1], k) ==
            ReplayOp(Replay(ws, parts, loc, ops[..t], k).value, parts, loc, ops[t], k)
  {
    assert ops[..t + 1][..t] == ops[..t];
  }

  /** Once the replay has thrown, it stays thrown. */
  lemma {:induction false} ReplayStaysNone(ws: seq<seq<Complex>>, parts: seq<seq<QubitRef>>,
                                           loc: map<QubitRef, (nat, nat)>, ops: seq<seq<string>>, t: nat, k: Constants)
    requires Fits(ws, parts) && Located(loc, parts)
    requires forall u :: 0 <= u < |ops| ==> ReadsOperand(ops[u])
    requires t <= |ops| && Replay(ws, parts, loc, ops[..t], k).None?
    ensures Replay(ws, parts, loc, ops, k).None?
  {
    if t < |ops| {
      var n := |ops| - 1;
      assert ops[..n][..t] == ops[..t];
      ReplayStaysNone(ws, parts, loc, ops[..n], t, k);
    } else {
      assert ops[..t] == ops;
    }
  }

  /** `Wavefunction(parts[p].size())`: |0...0>, or an empty vector on the disk path. */
  function InitialState(n: nat, diskLimitMb: nat): (s: seq<Complex>)
    ensures |s| == 0 || |s| == Pow2(n)
    ensures !DiskPath(n, diskLimitMb, ElemBytes) ==> s == Basis0(Pow2(n))
  {
    if DiskPath(n, diskLimitMb, ElemBytes) then [] else Basis0(Pow2(n))
  }

  function Initial(parts: seq<seq<QubitRef>>, diskLimitMb: nat): (ws: seq<seq<Complex>>)
    ensures Fits(ws, parts)
  {
    seq(|parts|, p requires 0 <= p < |parts| => InitialState(|parts[p]|, diskLimitMb))
  }

  /** What `execute_partitions` returns: None when the analysis or the replay
      throws, otherwise the product of the replayed regions. */
  ghost function Executed(ops: seq<seq<string>>, diskLimitMb: nat, k: Constants): Option<seq<Complex>>
    requires forall t :: 0 <= t < |ops| ==> ReadsOperand(ops[t])
  {
    var es := Effects(ops);
    if Aborts(es) then None
    else
      var parts := PartitionsSpec(es);
      match Replay(Initial(parts, diskLimitMb), parts, LocUpTo(parts, |parts|), ops, k)
      case None => None
      case Some(ws) => Some(TensorAll(ws))
  }

  // ---------------------------------------------------------------------------
  // The regions as Wavefunction objects

  /** `wfs`: one valid state per partition, sized to it, no two sharing a vector. */
  ghost predicate Regions(wfs: seq<Wavefunction>, parts: seq<seq<QubitRef>>)
    reads wfs
  {
    |wfs| == |parts| &&
    (forall p :: 0 <= p < |wfs| ==> wfs[p].Valid() && wfs[p].numQubits == |parts[p]|) &&
    (forall p, p' :: 0 <= p < |wfs| && 0 <= p' < |wfs| && p != p' ==> wfs[p].state != wfs[p'].state)
  }

  /** The regions' amplitude vectors. */
  ghost function States(wfs: seq<Wavefunction>): (ss: seq<seq<Complex>>)
    reads wfs, set p | 0 <= p < |wfs| :: wfs[p].state
    ensures |ss| == |wfs| && forall p :: 0 <= p < |wfs| ==> ss[p] == wfs[p].state[..]
  {
    seq(|wfs|, p reads wfs, set p | 0 <= p < |wfs| :: wfs[p].state requires 0 <= p < |wfs| => wfs[p].state[..])
  }

  /** The regions' vectors have the shape the replay expects. */
  lemma RegionsFit(wfs: seq<Wavefunction>, parts: seq<seq<QubitRef>>)
    requires Regions(wfs, parts)
    ensures Fits(States(wfs), parts)
  {
  }

  lemma RegionsSnoc(wfs: seq<Wavefunction>, parts: seq<seq<QubitRef>>, wf: Wavefunction, part: seq<QubitRef>)
    requires Regions(wfs, parts) && wf.Valid() && wf.numQubits == |part|
    requires forall q :: 0 <= q < |wfs| ==> wfs[q].state != wf.state
    ensures Regions(wfs + [wf], parts + [part])
  {
  }

  lemma StatesSnoc(wfs: seq<Wavefunction>, wf: Wavefunction)
    ensures States(wfs + [wf]) == States(wfs) + [wf.state[..]]
  {
  }

  lemma InitialSnoc(parts: seq<seq<QubitRef>>, p: nat, diskLimitMb: nat)
    requires p < |parts|
    ensures Initial(parts[..p + 1], diskLimitMb) == Initial(parts[..p], diskLimitMb) + [InitialState(|parts[p]|, diskLimitMb)]
  {
  }

  /** The inner loop of the set-up: enter one partition's qubits into `loc`. */
  method EnterRow(loc: map<QubitRef, (nat, nat)>, part: seq<QubitRef>, p: nat) returns (loc': map<QubitRef, (nat, nat)>)
    ensures loc' == LocRow(loc, part, p, |part|)
  {
    loc' := loc;
    var i := 0;
    while i < |part|
      invariant i <= |part|
      invariant loc' == LocRow(loc, part, p, i)
    {
      loc' := loc'[part[i] := (p, i)];
      i := i + 1;
    }
  }

  /** The set-up loop: a fresh state per partition and the position of every qubit. */
  method Allocate(parts: seq<seq<QubitRef>>, diskLimitMb: nat) returns (loc: map<QubitRef, (nat, nat)>, wfs: seq<Wavefunction>)
    ensures loc == LocUpTo(parts, |parts|)
    ensures Regions(wfs, parts) && States(wfs) == Initial(parts, diskLimitMb)
    ensures forall p :: 0 <= p < |wfs| ==> fresh(wfs[p].state)
  {
    loc, wfs := map[], [];
    SetUpStart(parts, diskLimitMb);
    var p := 0;
    while p < |parts|
      invariant p <= |parts| && SetUp(loc, wfs, parts, p, diskLimitMb)
      invariant forall q :: 0 <= q < |wfs| ==> fresh(wfs[q].state)
    {
      loc, wfs := AddRegion(loc, wfs, parts, p, diskLimitMb);
      p := p + 1;
    }
    SetUpDone(loc, wfs, parts, diskLimitMb);
  }

  lemma SetUpStart(parts: seq<seq<QubitRef>>, diskLimitMb: nat)
    ensures SetUp(map[], [], parts, 0, diskLimitMb)
  {
    assert parts[..0] == [];
  }

  lemma SetUpDone(loc: map<QubitRef, (nat, nat)>, wfs: seq<Wavefunction>, parts: seq<seq<QubitRef>>, diskLimitMb: nat)
    requires SetUp(loc, wfs, parts, |parts|, diskLimitMb)
    ensures loc == LocUpTo(parts, |parts|)
    ensures Regions(wfs, parts) && States(wfs) == Initial(parts, diskLimitMb)
  {
    assert parts[..|parts|] == parts;
  }

  /** The set-up loop's invariant: the first p partitions have their state and
      their entries in `loc`. */
  ghost predicate SetUp(loc: map<QubitRef, (nat, nat)>, wfs: seq<Wavefunction>, parts: seq<seq<QubitRef>>, p: nat, diskLimitMb: nat)
    reads wfs, set q | 0 <= q < |wfs| :: wfs[q].state
  {
    p <= |parts| && loc == LocUpTo(parts, p) &&
    Regions(wfs, parts[..p]) && States(wfs) == Initial(parts[..p], diskLimitMb)
  }

  /** One pass of the set-up loop: the inner loop over the partition's qubits
      and `wfs.emplace_back(parts[p].size())` (the two are independent; the
      source runs the emplace first). */
  method AddRegion(loc: map<QubitRef, (nat, nat)>, wfs: seq<Wavefunction>, parts: seq<seq<QubitRef>>, p: nat, diskLimitMb: nat)
    returns (loc': map<QubitRef, (nat, nat)>, wfs': seq<Wavefunction>)
    requires SetUp(loc, wfs, parts, p, diskLimitMb) && p < |parts|
    ensures SetUp(loc', wfs', parts, p + 1, diskLimitMb)
    ensures |wfs'| == |wfs| + 1 && fresh(wfs'[|wfs|].state)
    ensures forall q :: 0 <= q < |wfs| ==> wfs'[q].state == old(wfs[q].state)
  {
    var part := parts[p];
    assert part[..|part|] == part;
    loc' := EnterRow(loc, part, p);
    ghost var s0 := States(wfs);
    var wf := new Wavefunction(|parts[p]|, diskLimitMb, ElemBytes);
    assert forall q :: 0 <= q < |wfs| ==> wfs[q].state != wf.state;
    assert States(wfs) == s0;
    assert wf.state[..] == InitialState(|parts[p]|, diskLimitMb);
    RegionsSnoc(wfs, parts[..p], wf, parts[p]);
    StatesSnoc(wfs, wf);
    InitialSnoc(parts, p, diskLimitMb);
    PrefixSnoc(parts, p);
    wfs' := wfs + [wf];
    assert loc' == LocUpTo(parts, p + 1);
    assert Regions(wfs', parts[..p + 1]);
    assert States(wfs') == Initial(parts[..p + 1], diskLimitMb);
  }

  /** A single-qubit gate on region p at position j. */
  method ApplySingle(wfs: seq<Wavefunction>, parts: seq<seq<QubitRef>>, p: nat, name: string, j: nat, k: Constants)
    requires Regions(wfs, parts) && p < |wfs| && j < |parts[p]| && IsSingleGate(name)
    modifies wfs[p].state
    ensures Regions(wfs, parts)
    ensures States(wfs) == old(States(wfs))[p := SingleOn(old(States(wfs))[p], |parts[p]|, name, j, k)]
  {
    var wf := wfs[p];
    if name == "H" {
      wf.ApplyH(j, k);
    } else if name == "X" {
      wf.ApplyX(j);
    } else if name == "Y" {
      wf.ApplyY(j);
    } else if name == "Z" {
      wf.ApplyZ(j);
    } else if name == "S" {
      wf.ApplyS(j);
    } else {
      wf.ApplyT(j, k);
    }
  }

  /** A CNOT, CZ or SWAP on region p at positions a and b. */
  method ApplyPair(wfs: seq<Wavefunction>, parts: seq<seq<QubitRef>>, p: nat, name: string, a: nat, b: nat)
    requires Regions(wfs, parts) && p < |wfs| && a < |parts[p]| && b < |parts[p]| && IsPairGate(name)
    modifies wfs[p].state
    ensures Regions(wfs, parts)
    ensures States(wfs) == old(States(wfs))[p := PairOn(old(States(wfs))[p], |parts[p]|, name, a, b)]
  {
    var wf := wfs[p];
    if name == "CNOT" {
      wf.ApplyCnot(a, b);
    } else if name == "CZ" {
      wf.ApplyCz(a, b);
    } else {
      wf.ApplySwap(a, b);
    }
  }

  /** A CCX on region p at positions a, b (controls) and c (target). */
  method ApplyCcx(wfs: seq<Wavefunction>, parts: seq<seq<QubitRef>>, p: nat, a: nat, b: nat, c: nat)
    requires Regions(wfs, parts) && p < |wfs| && a < |parts[p]| && b < |parts[p]| && c < |parts[p]|
    modifies wfs[p].state
    ensures Regions(wfs, parts)
    ensures States(wfs) == old(States(wfs))[p := CcxOn(old(States(wfs))[p], |parts[p]|, a, b, c)]
  {
    wfs[p].ApplyCcnot(a, b, c);
  }

  /** One pass of the replay loop on the regions; false where the runtime throws. */
  method ReplayOne(wfs: seq<Wavefunction>, parts: seq<seq<QubitRef>>, loc: map<QubitRef, (nat, nat)>,
                   op: seq<string>, k: Constants) returns (ok: bool)
    requires Regions(wfs, parts) && Located(loc, parts) && ReadsOperand(op)
    modifies set p | 0 <= p < |wfs| :: wfs[p].state
    ensures Regions(wfs, parts)
    ensures ok <==> ReplayOp(old(States(wfs)), parts, loc, op, k).Some?
    ensures ok ==> States(wfs) == ReplayOp(old(States(wfs)), parts, loc, op, k).value
  {
    RegionsFit(wfs, parts);
    if |op| == 0 {
      return true;
    }
    if IsSingleGate(op[0]) {
      var i := Stoul(op[2]);
      if i.None? {
        return false;
      }
      var q := QubitRef(op[1], i.value);
      if q !in loc {
        return false;
      }
      ApplySingle(wfs, parts, loc[q].0, op[0], loc[q].1, k);
      return true;
    } else if IsPairGate(op[0]) && |op| == 5 {
      var qs := Operands(op, 2);
      if qs.None? {
        return false;
      }
      var a, b := qs.value[0], qs.value[1];
      if a !in loc || b !in loc {
        return false;
      }
      if loc[a].0 != loc[b].0 {
        return true;
      }
      ApplyPair(wfs, parts, loc[a].0, op[0], loc[a].1, loc[b].1);
      return true;
    } else if op[0] == "CCX" && |op| == 7 {
      var qs := Operands(op, 3);
      if qs.None? {
        return false;
      }
      var a, b, c := qs.value[0], qs.value[1], qs.value[2];
      if a !in loc || b !in loc || c !in loc {
        return false;
      }
      if loc[a].0 != loc[b].0 || loc[a].0 != loc[c].0 {
        return true;
      }
      ApplyCcx(wfs, parts, loc[a].0, loc[a].1, loc[b].1, loc[c].1);
      return true;
    }
    return true;
  }

  /** The replay loop over the operations. */
  method ReplayAll(wfs: seq<Wavefunction>, parts: seq<seq<QubitRef>>, loc: map<QubitRef, (nat, nat)>,
                   ops: seq<seq<string>>, k: Constants) returns (ok: bool)
    requires Regions(wfs, parts) && Located(loc, parts)
    requires forall t :: 0 <= t < |ops| ==> ReadsOperand(ops[t])
    modifies set p | 0 <= p < |wfs| :: wfs[p].state
    ensures Regions(wfs, parts)
    ensures ok <==> Replay(old(States(wfs)), parts, loc, ops, k).Some?
    ensures ok ==> States(wfs) == Replay(old(States(wfs)), parts, loc, ops, k).value
  {
    ghost var s0 := States(wfs);
    RegionsFit(wfs, parts);
    var t := 0;
    while t < |ops|
      invariant t <= |ops|
      invariant Regions(wfs, parts)
      invariant Replay(s0, parts, loc, ops[..t], k) == Some(States(wfs))
    {
      var done := ReplayNext(wfs, parts, loc, ops, t, k, s0);
      if !done {
        return false;
      }
      t := t + 1;
    }
    assert ops[..t] == ops;
    return true;
  }

  /** One turn of the loop in `execute_partitions`: instruction t on the
      regions replayed up to t. */
  method ReplayNext(wfs: seq<Wavefunction>, parts: seq<seq<QubitRef>>, loc: map<QubitRef, (nat, nat)>,
                    ops: seq<seq<string>>, t: nat, k: Constants, ghost s0: seq<seq<Complex>>) returns (ok: bool)
    requires Regions(wfs, parts) && Located(loc, parts) && Fits(s0, parts)
    requires forall u :: 0 <= u < |ops| ==> ReadsOperand(ops[u])
    requires t < |ops| && Replay(s0, parts, loc, ops[..t], k) == Some(States(wfs))
    modifies set p | 0 <= p < |wfs| :: wfs[p].state
    ensures Regions(wfs, parts)
    ensures !ok ==> Replay(s0, parts, loc, ops, k).None?
    ensures ok ==> Replay(s0, parts, loc, ops[..t + 1], k) == Some(States(wfs))
  {
    ReplaySnoc(s0, parts, loc, ops, t, k);
    RegionsFit(wfs, parts);
    ok := ReplayOne(wfs, parts, loc, ops[t], k);
    if !ok {
      ReplayStaysNone(s0, parts, loc, ops, t + 1, k);
    }
  }

  /** The recombination loop. */
  method Recombine(wfs: seq<Wavefunction>) returns (state: seq<Complex>)
    ensures state == TensorAll(old(States(wfs)))
  {
    ghost var ss := States(wfs);
    state := [One];
    var p := 0;
    while p < |wfs|
      invariant p <= |wfs|
      invariant state == TensorAll(ss[..p])
    {
      assert ss[..p + 1][..p] == ss[..p];
      state := TensorProduct(state, wfs[p].state[..]);
      p := p + 1;
    }
    assert ss[..p] == ss;
  }

  /** `execute_partitions(ops)`: the amplitudes of the returned state, or None
      where the runtime throws. `diskLimitMb` is `runtime_config.disk_limit_mb`
      and `k` the H and T constants. */
  method ExecutePartitions(ops: seq<seq<string>>, diskLimitMb: nat, k: Constants) returns (r: Option<seq<Complex>>)
    requires forall t :: 0 <= t < |ops| ==> ReadsOperand(ops[t])
    ensures r == Executed(ops, diskLimitMb, k)
  {
    var analysed := AnalyzeSeparableRegions(ops);
    if analysed.None? {
      return None;
    }
    var parts := analysed.value;
    var loc, wfs := Allocate(parts, diskLimitMb);
    ghost var s0 := States(wfs);
    ghost var replayed := Replay(s0, parts, loc, ops, k);
    assert replayed == Replay(Initial(parts, diskLimitMb), parts, LocUpTo(parts, |parts|), ops, k);
    var ok := ReplayAll(wfs, parts, loc, ops, k);
    if !ok {
      return None;
    }
    assert States(wfs) == replayed.value;
    var state := Recombine(wfs);
    return Some(state);
  }

  // ---------------------------------------------------------------------------
  // What the replay promises

  /** `loc` holds exactly the registered qubits, each at its partition and its
      position inside that partition. */
  lemma LocDomain(es: seq<Effect>, q: QubitRef)
    ensures q in LocUpTo(PartitionsSpec(es), |PartitionsSpec(es)|) <==> q in Registered(es)
    ensures var parts := PartitionsSpec(es); var loc := LocUpTo(parts, |parts|);
            q in loc ==> parts[loc[q].0][loc[q].1] == q
  {
    var parts := PartitionsSpec(es);
    var loc := LocUpTo(parts, |parts|);
    PartitionsCover(es, q);
    if q in Registered(es) {
      var p :| 0 <= p < |parts| && q in parts[p];
      var j :| 0 <= j < |parts[p]| && parts[p][j] == q;
    }
    if q in loc {
      assert q in parts[loc[q].0];
    }
  }

  /** The operands of a multi-qubit gate are registered and were placed in one
      partition, so the cross-partition `continue` is never taken. */
  lemma CoupledTogether(es: seq<Effect>, t: nat, i: nat)
    requires t < |es| && es[t].Couple? && i < |es[t].qs|
    ensures var parts := PartitionsSpec(es); var loc := LocUpTo(parts, |parts|);
            es[t].qs[0] in loc && es[t].qs[i] in loc && loc[es[t].qs[i]].0 == loc[es[t].qs[0]].0
  {
    var qs := es[t].qs;
    var parts := PartitionsSpec(es);
    var loc := LocUpTo(parts, |parts|);
    assert qs[0] in Touched(es[t]) && qs[i] in Touched(es[t]);
    RegisteredIff(es, qs[0]);
    RegisteredIff(es, qs[i]);
    LocDomain(es, qs[0]);
    LocDomain(es, qs[i]);
    CoupledJoined(es, t, 0, i);
    PartitionsTogether(es, qs[0], qs[i], loc[qs[0]].0, loc[qs[i]].0);
  }

  /** Once the analysis has succeeded, a CNOT, CZ or SWAP of the list never
      throws during the replay and is never skipped: it acts on the partition
      of its operands at their positions there. */
  lemma PairGateApplied(ops: seq<seq<string>>, t: nat, ws: seq<seq<Complex>>, k: Constants)
    requires t < |ops| && |ops[t]| == 5 && IsPairGate(ops[t][0]) && !Aborts(Effects(ops))
    requires Fits(ws, PartitionsSpec(Effects(ops)))
    ensures Effects(ops)[t].Couple?
    ensures var parts := PartitionsSpec(Effects(ops)); var loc := LocUpTo(parts, |parts|);
            var a, b := Effects(ops)[t].qs[0], Effects(ops)[t].qs[1];
            a in loc && b in loc && loc[a].0 == loc[b].0 &&
            ReplayOp(ws, parts, loc, ops[t], k) ==
              Some(ws[loc[a].0 := PairOn(ws[loc[a].0], |parts[loc[a].0]|, ops[t][0], loc[a].1, loc[b].1)])
  {
    var es := Effects(ops);
    AbortsIff(es);
    ClassifyCouple(ops[t]);
    CoupledTogether(es, t, 1);
  }

  /** The same for CCX: all three operands share a partition. */
  lemma CcxGateApplied(ops: seq<seq<string>>, t: nat, ws: seq<seq<Complex>>, k: Constants)
    requires t < |ops| && |ops[t]| == 7 && ops[t][0] == "CCX" && !Aborts(Effects(ops))
    requires Fits(ws, PartitionsSpec(Effects(ops)))
    ensures Effects(ops)[t].Couple?
    ensures var parts := PartitionsSpec(Effects(ops)); var loc := LocUpTo(parts, |parts|);
            var a, b, c := Effects(ops)[t].qs[0], Effects(ops)[t].qs[1], Effects(ops)[t].qs[2];
            a in loc && b in loc && c in loc && loc[a].0 == loc[b].0 == loc[c].0 &&
            ReplayOp(ws, parts, loc, ops[t], k) ==
              Some(ws[loc[a].0 := CcxOn(ws[loc[a].0], |parts[loc[a].0]|, loc[a].1, loc[b].1, loc[c].1)])
  {
    var es := Effects(ops);
    AbortsIff(es);
    ClassifyCouple(ops[t]);
    CoupledTogether(es, t, 1);
    CoupledTogether(es, t, 2);
  }

  /** A single-qubit gate throws (`loc.at`) exactly when its index does not
      parse or its qubit was never registered, that is, no QALLOC or
      multi-qubit gate names it; otherwise it acts on the qubit's partition at
      the qubit's position there. */
  lemma SingleGateResolved(es: seq<Effect>, op: seq<string>, ws: seq<seq<Complex>>, k: Constants)
    requires |op| >= 3 && IsSingleGate(op[0]) && Fits(ws, PartitionsSpec(es))
    ensures var parts := PartitionsSpec(es); var loc := LocUpTo(parts, |parts|);
            var r := ReplayOp(ws, parts, loc, op, k);
            (r.None? <==> Stoul(op[2]).None? || QubitRef(op[1], Stoul(op[2]).value) !in Registered(es)) &&
            (r.Some? ==> var q := QubitRef(op[1], Stoul(op[2]).value);
                         parts[loc[q].0][loc[q].1] == q &&
                         r.value == ws[loc[q].0 := SingleOn(ws[loc[q].0], |parts[loc[q].0]|, op[0], loc[q].1, k)])
  {
    if Stoul(op[2]).Some? {
      LocDomain(es, QubitRef(op[1], Stoul(op[2]).value));
    }
  }

  /** A disk limit no register of all the registered qubits reaches keeps
      every region in memory. */
  lemma {:induction false} DiskPathUpward(n: nat, m: nat, limitMb: nat)
    requires n <= m && DiskPath(n, limitMb, ElemBytes)
    ensures DiskPath(m, limitMb, ElemBytes)
    decreases m - n
  {
    if n < m {
      DiskPathMonotone(n, limitMb, ElemBytes);
      DiskPathUpward(n + 1, m, limitMb);
    }
  }

  /** No group is larger than all groups together. */
  lemma {:induction false} GroupWithinTotal<T>(gs: seq<seq<T>>, p: nat)
    requires p < |gs|
    ensures |gs[p]| <= TotalSize(gs)
  {
    var n := |gs| - 1;
    if p < n {
      GroupWithinTotal(gs[..n], p);
    }
  }

  /** When the whole register would stay in memory, every region does, and the
      returned state has 2^(number of registered qubits) amplitudes: the
      `num_qubits = log2(size)` of the result is the registered-qubit count. */
  lemma ExecutedLength(ops: seq<seq<string>>, diskLimitMb: nat, k: Constants)
    requires forall t :: 0 <= t < |ops| ==> ReadsOperand(ops[t])
    requires !DiskPath(|Registered(Effects(ops))|, diskLimitMb, ElemBytes)
    ensures Executed(ops, diskLimitMb, k).Some? ==>
              |Executed(ops, diskLimitMb, k).value| == Pow2(|Registered(Effects(ops))|)
  {
    var es := Effects(ops);
    if !Aborts(es) {
      var parts := PartitionsSpec(es);
      var loc := LocUpTo(parts, |parts|);
      var ws0 := Initial(parts, diskLimitMb);
      PartitionsTotal(es);
      forall p | 0 <= p < |parts|
        ensures |ws0[p]| == Pow2(|parts[p]|)
      {
        GroupWithinTotal(parts, p);
        if DiskPath(|parts[p]|, diskLimitMb, ElemBytes) {
          DiskPathUpward(|parts[p]|, |Registered(es)|, diskLimitMb);
        }
      }
      var r := Replay(ws0, parts, loc, ops, k);
      if r.Some? {
        TensorAllLength(r.value, parts);
      }
    }
  }

  // ---------------------------------------------------------------------------
  // tests/partitioner_test.cpp carried through the replay: H on a[0] and X on
  // b[0], each in a region of its own, give the amplitudes (0, h, 0, h).

  lemma ExampleExecuted(diskLimitMb: nat, k: Constants)
    ensures var h := Complex(k.invSqrt2, 0.0);
            Executed(ExampleOps(), diskLimitMb, k) == Some([Zero, h, Zero, h])
  {
    var ops := ExampleOps();
    var h := Complex(k.invSqrt2, 0.0);
    ExampleReads();
    ExampleRegistered();
    ExamplePartitions();
    ExampleRegions(diskLimitMb, k);
    ExampleProduct(h);
  }

  /** The two regions after the replay: H made a[0] (h, h), X made b[0] (0, 1). */
  lemma ExampleRegions(diskLimitMb: nat, k: Constants)
    requires forall t :: 0 <= t < |ExampleOps()| ==> ReadsOperand(ExampleOps()[t])
    ensures var parts := [[QubitRef("a", 0)], [QubitRef("b", 0)]];
            var h := Complex(k.invSqrt2, 0.0);
            Replay(Initial(parts, diskLimitMb), parts, LocUpTo(parts, 2), ExampleOps(), k) == Some([[h, h], [Zero, One]])
  {
    var h := Complex(k.invSqrt2, 0.0);
    var parts := [[QubitRef("a", 0)], [QubitRef("b", 0)]];
    var loc := LocUpTo(parts, 2);
    var w0 := Initial(parts, diskLimitMb);
    ExampleLoc();
    ExampleInitial(diskLimitMb);
    ExampleSteps(w0, loc, k);
    var w2 := w0[0 := SingleOn(w0[0], 1, "H", 0, k)];
    var w3 := w2[1 := SingleOn(w0[1], 1, "X", 0, k)];
    ExampleReplay(w0, parts, loc, k, w2, w3);
    ExampleGates(w0, k);
  }

  lemma ExampleGates(w0: seq<seq<Complex>>, k: Constants)
    requires w0 == [[One, Zero], [One, Zero]]
    ensures var h := Complex(k.invSqrt2, 0.0);
            var w2 := w0[0 := SingleOn(w0[0], 1, "H", 0, k)];
            w2[1 := SingleOn(w0[1], 1, "X", 0, k)] == [[h, h], [Zero, One]]
  {
    assert Pow2(1) == 2;
    HOnBasis(k);
    XOnBasis(k);
  }

  lemma ExampleReads()
    ensures forall t :: 0 <= t < |ExampleOps()| ==> ReadsOperand(ExampleOps()[t])
  {
    var ops := ExampleOps();
    assert forall t :: 0 <= t < |ops| ==> |ops[t]| == 3;
  }

  lemma ExampleInitial(diskLimitMb: nat)
    ensures Initial([[QubitRef("a", 0)], [QubitRef("b", 0)]], diskLimitMb) == [[One, Zero], [One, Zero]]
  {
    assert Pow2(1) == 2;
    assert Basis0(2) == [One, Zero];
  }

  lemma ExampleLoc()
    ensures var loc := LocUpTo([[QubitRef("a", 0)], [QubitRef("b", 0)]], 2);
            Located(loc, [[QubitRef("a", 0)], [QubitRef("b", 0)]]) &&
            QubitRef("a", 0) in loc && loc[QubitRef("a", 0)] == (0, 0) &&
            QubitRef("b", 0) in loc && loc[QubitRef("b", 0)] == (1, 0)
  {
    var a0, b0 := QubitRef("a", 0), QubitRef("b", 0);
    var parts := [[a0], [b0]];
    var loc := LocUpTo(parts, 2);
    assert parts[0][0] == a0 && parts[1][0] == b0;
  }

  /** The four operations one at a time, on any two one-qubit regions. */
  lemma ExampleSteps(w0: seq<seq<Complex>>, loc: map<QubitRef, (nat, nat)>, k: Constants)
    requires |w0| == 2 && |w0[0]| == 2 && |w0[1]| == 2
    requires Located(loc, [[QubitRef("a", 0)], [QubitRef("b", 0)]])
    requires QubitRef("a", 0) in loc && loc[QubitRef("a", 0)] == (0, 0)
    requires QubitRef("b", 0) in loc && loc[QubitRef("b", 0)] == (1, 0)
    ensures Fits(w0, [[QubitRef("a", 0)], [QubitRef("b", 0)]])
    ensures ReplayOp(w0, [[QubitRef("a", 0)], [QubitRef("b", 0)]], loc, ["QALLOC", "a", "1"], k) == Some(w0)
    ensures ReplayOp(w0, [[QubitRef("a", 0)], [QubitRef("b", 0)]], loc, ["QALLOC", "b", "1"], k) == Some(w0)
    ensures var w2 := w0[0 := SingleOn(w0[0], 1, "H", 0, k)];
            ReplayOp(w0, [[QubitRef("a", 0)], [QubitRef("b", 0)]], loc, ["H", "a", "0"], k) == Some(w2) &&
            Fits(w2, [[QubitRef("a", 0)], [QubitRef("b", 0)]]) &&
            ReplayOp(w2, [[QubitRef("a", 0)], [QubitRef("b", 0)]], loc, ["X", "b", "0"], k) ==
              Some(w2[1 := SingleOn(w0[1], 1, "X", 0, k)])
  {
    var parts := [[QubitRef("a", 0)], [QubitRef("b", 0)]];
    assert Pow2(1) == 2;
    ExampleAlloc(w0, parts, loc, "a", k);
    ExampleAlloc(w0, parts, loc, "b", k);
    StoulDecimal([], 0, []);
    assert [] + Decimal(0) + [] == "0";
    SingleStep(w0, parts, loc, ["H", "a", "0"], k, 0, 0);
    var w2 := w0[0 := SingleOn(w0[0], 1, "H", 0, k)];
    SingleStep(w2, parts, loc, ["X", "b", "0"], k, 1, 0);
  }

  /** An allocation changes no region. */
  lemma ExampleAlloc(ws: seq<seq<Complex>>, parts: seq<seq<QubitRef>>, loc: map<QubitRef, (nat, nat)>, reg: string, k: Constants)
    requires Fits(ws, parts) && Located(loc, parts)
    ensures ReplayOp(ws, parts, loc, ["QALLOC", reg, "1"], k) == Some(ws)
  {
    var name := "QALLOC";
    assert name[0] == 'Q' && |name| == 6;
    assert !IsSingleGate(name) && !IsPairGate(name) && name != "CCX";
  }

  /** One single-qubit gate whose qubit is known. */
  lemma SingleStep(ws: seq<seq<Complex>>, parts: seq<seq<QubitRef>>, loc: map<QubitRef, (nat, nat)>,
                   op: seq<string>, k: Constants, p: nat, j: nat)
    requires Fits(ws, parts) && Located(loc, parts) && |op| == 3 && IsSingleGate(op[0])
    requires Stoul(op[2]).Some? && QubitRef(op[1], Stoul(op[2]).value) in loc
    requires loc[QubitRef(op[1], Stoul(op[2]).value)] == (p, j)
    ensures p < |ws| && j < |parts[p]|
    ensures ReplayOp(ws, parts, loc, op, k) == Some(ws[p := SingleOn(ws[p], |parts[p]|, op[0], j, k)])
  {
  }

  /** The replay of the four operations: two allocations that change nothing,
      then one gate in each region. */
  lemma ExampleReplay(w0: seq<seq<Complex>>, parts: seq<seq<QubitRef>>, loc: map<QubitRef, (nat, nat)>,
                      k: Constants, w2: seq<seq<Complex>>, w3: seq<seq<Complex>>)
    requires Fits(w0, parts) && Located(loc, parts) && Fits(w2, parts)
    requires ReplayOp(w0, parts, loc, ["QALLOC", "a", "1"], k) == Some(w0)
    requires ReplayOp(w0, parts, loc, ["QALLOC", "b", "1"], k) == Some(w0)
    requires ReplayOp(w0, parts, loc, ["H", "a", "0"], k) == Some(w2)
    requires ReplayOp(w2, parts, loc, ["X", "b", "0"], k) == Some(w3)
    ensures Replay(w0, parts, loc, ExampleOps(), k) == Some(w3)
  {
    var ops := ExampleOps();
    assert ops[0] == ["QALLOC", "a", "1"] && ops[1] == ["QALLOC", "b", "1"];
    assert ops[2] == ["H", "a", "0"] && ops[3] == ["X", "b", "0"];
    ExampleReads();
    Replay4(w0, parts, loc, ops, k, w2, w3);
  }

  /** Four operations whose steps are known. */
  lemma Replay4(w0: seq<seq<Complex>>, parts: seq<seq<QubitRef>>, loc: map<QubitRef, (nat, nat)>,
                ops: seq<seq<string>>, k: Constants, w2: seq<seq<Complex>>, w3: seq<seq<Complex>>)
    requires Fits(w0, parts) && Located(loc, parts) && Fits(w2, parts)
    requires |ops| == 4 && forall t :: 0 <= t < |ops| ==> ReadsOperand(ops[t])
    requires ReplayOp(w0, parts, loc, ops[0], k) == Some(w0)
    requires ReplayOp(w0, parts, loc, ops[1], k) == Some(w0)
    requires ReplayOp(w0, parts, loc, ops[2], k) == Some(w2)
    requires ReplayOp(w2, parts, loc, ops[3], k) == Some(w3)
    ensures Replay(w0, parts, loc, ops, k) == Some(w3)
  {
    assert ops[..0] == [];
    ReplaySnoc(w0, parts, loc, ops, 0, k);
    ReplaySnoc(w0, parts, loc, ops, 1, k);
    ReplaySnoc(w0, parts, loc, ops, 2, k);
    ReplaySnoc(w0, parts, loc, ops, 3, k);
    assert ops[..4] == ops;
  }

  lemma HOnBasis(k: Constants)
    ensures var h := Complex(k.invSqrt2, 0.0);
            SingleOn([One, Zero], 1, "H", 0, k) == [h, h]
  {
    var r := SingleOn([One, Zero], 1, "H", 0, k);
    assert !Bit(0, 0) && Bit(1, 0);
    assert Flip(0, 0) == 1 && Flip(1, 0) == 0;
  }

  lemma XOnBasis(k: Constants)
    ensures SingleOn([One, Zero], 1, "X", 0, k) == [Zero, One]
  {
    assert !Bit(0, 0) && Bit(1, 0);
    assert Flip(0, 0) == 1 && Flip(1, 0) == 0;
  }

  lemma ExampleProduct(h: Complex)
    ensures TensorAll([[h, h], [Zero, One]]) == [Zero, h, Zero, h]
  {
    var a, b := [h, h], [Zero, One];
    var ws := [a, b];
    assert ws[..1] == [a] && [a][..0] == [];
    TensorOne(a);
    assert TensorAll([a]) == a;
    var t := Tensor(a, b);
    assert TensorAll(ws) == t;
    var m0, m1 := Mul(h, Zero), Mul(h, One);
    MulComm(h, Zero);
    MulZeroLeft(h);
    MulComm(h, One);
    MulOneLeft(h);
    TensorAt(a, b, 0, 0);
    TensorAt(a, b, 0, 1);
    TensorAt(a, b, 1, 0);
    TensorAt(a, b, 1, 1);
    assert t[0] == Zero && t[1] == h && t[2] == Zero && t[3] == h;
  }

}

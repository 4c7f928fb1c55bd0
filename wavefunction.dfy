/** The dense state vector of runtime/wavefunction.cpp: a class holding the
    amplitude array, the compressed (sparse) form and the disk-backing flag,
    with the gate kernels, both measurements, reset and the dense/sparse
    conversions as methods that change that state in place. */
module DenseWavefunction {
  import opened ComplexNumbers
  import opened Bits
  import opened GateKernels
  import opened PairSwaps
  import opened Paging

  // ---------------------------------------------------------------------------
  // Specification functions

  /** The constructor's test for a disk-backed state, with
      `bytes = 2^n * sizeof(std::complex<Real>)` and `2^20` bytes to a MiB. */
  predicate DiskPath(n: nat, limitMb: nat, elemBytes: nat) {
    limitMb > 0 && (Pow2(n) * elemBytes) / 1048576 >= limitMb
  }

  /** The basis state |0...0> on n amplitudes. */
  function Basis0(n: nat): (r: seq<Complex>)
    ensures |r| == n
  {
    seq(n, i => if i == 0 then One else Zero)
  }

  /** `apply_cz`: negate every amplitude whose control and target bits are both set. */
  function CzApplied(s: seq<Complex>, c: nat, t: nat): (r: seq<Complex>)
    ensures |r| == |s|
  {
    seq(|s|, i requires 0 <= i < |s| => if Bit(i, c) && Bit(i, t) then Neg(s[i]) else s[i])
  }

  /** The collapse of `measure(q)` to `outcome`; `scale` is the reciprocal of the
      renormalisation factor `sqrt(p)`. */
  function Collapse(s: seq<Complex>, q: nat, outcome: bool, scale: real): (r: seq<Complex>)
    ensures |r| == |s|
  {
    seq(|s|, i requires 0 <= i < |s| => if Bit(i, q) != outcome then Zero else Scale(scale, s[i]))
  }

  /** The joint outcome of index i for the measured qubits qs: bit j of the
      outcome is set when bit `qs[j]` of i is (the loop at lines 374-376). */
  function OutcomeOf(i: nat, qs: seq<nat>): nat {
    if |qs| == 0 then 0
    else
      var o := OutcomeOf(i, qs[..|qs| - 1]);
      if Bit(i, qs[|qs| - 1]) then Set(o, |qs| - 1) else o
  }

  /** The collapse of `measure(qs)` to `result`. */
  function JointCollapse(s: seq<Complex>, qs: seq<nat>, result: nat, scale: real): (r: seq<Complex>)
    ensures |r| == |s|
  {
    seq(|s|, i requires 0 <= i < |s| => if OutcomeOf(i, qs) == result then Scale(scale, s[i]) else Zero)
  }

  /** Index i agrees with `result` on every measured qubit. */
  ghost predicate Matches(i: nat, qs: seq<nat>, result: nat) {
    forall j :: 0 <= j < |qs| ==> Bit(i, qs[j]) == Bit(result, j)
  }

  /** The number of amplitudes above the threshold, as `nnz` counts them. */
  function NonNegligibleCount(s: seq<Complex>): nat {
    if |s| == 0 then 0
    else NonNegligibleCount(s[..|s| - 1]) + (if Negligible(s[|s| - 1]) then 0 else 1)
  }

  /** The map `compress` builds: one entry per amplitude above the threshold. */
  function CompressMap(s: seq<Complex>): (m: map<nat, Complex>)
    ensures forall k :: k in m ==> k < |s| && m[k] == s[k] && !Negligible(s[k])
    ensures forall k :: 0 <= k < |s| && !Negligible(s[k]) ==> k in m
  {
    if |s| == 0 then map[]
    else
      var m := CompressMap(s[..|s| - 1]);
      if Negligible(s[|s| - 1]) then m else m[|s| - 1 := s[|s| - 1]]
  }

  /** A compressed state: keys inside the register, no negligible value. */
  ghost predicate SparseValid(m: map<nat, Complex>, n: nat) {
    forall k :: k in m ==> k < n && !Negligible(m[k])
  }

  /** The amplitude a map stores for an index, zero for an absent key. */
  function SparseAt(m: map<nat, Complex>, i: nat): Complex {
    if i in m then m[i] else Zero
  }

  /** The amplitude a vector stores for an index, zero out of range. */
  function DenseAt(s: seq<Complex>, i: nat): Complex {
    if i < |s| then s[i] else Zero
  }

  /** The vector `decompress` builds from a map on n amplitudes. */
  function Expand(m: map<nat, Complex>, n: nat): (r: seq<Complex>)
    ensures |r| == n
  {
    seq(n, i requires 0 <= i < n => SparseAt(m, i))
  }

  /** s with every negligible amplitude replaced by zero. */
  function Threshold(s: seq<Complex>): (r: seq<Complex>)
    ensures |r| == |s|
  {
    seq(|s|, i requires 0 <= i < |s| => if Negligible(s[i]) then Zero else s[i])
  }

  // ---------------------------------------------------------------------------
  // The class

  class Wavefunction {
    var state: array<Complex>
    var numQubits: nat
    var diskBacked: bool
    /** `is_sparse` and `sparse_state`, declared by the .cpp only. */
    var isSparse: bool
    var sparseState: map<nat, Complex>
    var pager: DiskPager?

    /** The dense vector is empty (disk-backed or compressed) or holds all 2^n
        amplitudes; a compressed state keeps its amplitudes in the map. */
    ghost predicate Valid()
      reads this
    {
      (state.Length == 0 || state.Length == Pow2(numQubits)) &&
      (!diskBacked && !isSparse ==> state.Length == Pow2(numQubits)) &&
      (isSparse ==> state.Length == 0 && SparseValid(sparseState, Pow2(numQubits))) &&
      (!isSparse ==> sparseState == map[]) &&
      (diskBacked ==> pager != null)
    }

    /** The vector `decompress` would produce from the current state. */
    ghost function Decompressed(): (r: seq<Complex>)
      reads this, state
    {
      if isSparse then Expand(sparseState, Pow2(numQubits)) else state[..]
    }

    /** `Wavefunction(qubits)` with the configured disk limit and element size.
        On the disk path a pager of 2^n zeros is created (with the header's
        default page of 1024 elements) and the dense vector is emptied;
        otherwise the state is |0...0>. */
    constructor (qubits: nat, diskLimitMb: nat, elemBytes: nat)
      ensures Valid() && fresh(state)
      ensures numQubits == qubits && !isSparse && sparseState == map[]
      ensures diskBacked == DiskPath(qubits, diskLimitMb, elemBytes)
      ensures diskBacked ==> state.Length == 0 && pager != null && fresh(pager) &&
                             pager.Valid() && pager.Contents() == Zeros(Pow2(qubits))
      ensures !diskBacked ==> pager == null && state[..] == Basis0(Pow2(qubits))
    {
      numQubits := qubits;
      isSparse := false;
      sparseState := map[];
      var size := Pow2(qubits);
      var bytes := size * elemBytes;
      if diskLimitMb > 0 && bytes / 1048576 >= diskLimitMb {
        pager := new DiskPager(size, 1024);
        diskBacked := true;
        state := new Complex[0];
      } else {
        pager := null;
        diskBacked := false;
        var a := new Complex[size](_ => Zero);
        a[0] := One;
        state := a;
        assert a[..] == Basis0(size);
      }
    }

    // -------------------------------------------------------------------------
    // Single-qubit gates: the strided kernel with each gate's matrix. On an
    // empty vector the loop does nothing; on a full one the target must be a
    // qubit of the register or the kernel reads past the end.

    method ApplyH(q: nat, k: Constants)
      requires Valid() && (state.Length == 0 || q < numQubits)
      modifies state
      ensures Valid() && Pairable(state.Length, q)
      ensures state[..] == Kernel(old(state[..]), q, HMat(k))
    {
      RegisterPairable(state.Length, numQubits, q);
      ApplySingleQubitGateCpu(state, q, HMat(k));
    }

    method ApplyX(q: nat)
      requires Valid() && (state.Length == 0 || q < numQubits)
      modifies state
      ensures Valid() && Pairable(state.Length, q)
      ensures state[..] == Kernel(old(state[..]), q, XMat())
    {
      RegisterPairable(state.Length, numQubits, q);
      ApplySingleQubitGateCpu(state, q, XMat());
    }

    method ApplyY(q: nat)
      requires Valid() && (state.Length == 0 || q < numQubits)
      modifies state
      ensures Valid() && Pairable(state.Length, q)
      ensures state[..] == Kernel(old(state[..]), q, YMat())
    {
      RegisterPairable(state.Length, numQubits, q);
      ApplySingleQubitGateCpu(state, q, YMat());
    }

    method ApplyZ(q: nat)
      requires Valid() && (state.Length == 0 || q < numQubits)
      modifies state
      ensures Valid() && Pairable(state.Length, q)
      ensures state[..] == Kernel(old(state[..]), q, ZMat())
    {
      RegisterPairable(state.Length, numQubits, q);
      ApplySingleQubitGateCpu(state, q, ZMat());
    }

    method ApplyS(q: nat)
      requires Valid() && (state.Length == 0 || q < numQubits)
      modifies state
      ensures Valid() && Pairable(state.Length, q)
      ensures state[..] == Kernel(old(state[..]), q, SMat())
    {
      RegisterPairable(state.Length, numQubits, q);
      ApplySingleQubitGateCpu(state, q, SMat());
    }

    method ApplyT(q: nat, k: Constants)
      requires Valid() && (state.Length == 0 || q < numQubits)
      modifies state
      ensures Valid() && Pairable(state.Length, q)
      ensures state[..] == Kernel(old(state[..]), q, TMat(k))
    {
      RegisterPairable(state.Length, numQubits, q);
      ApplySingleQubitGateCpu(state, q, TMat(k));
    }

    /** `apply_fused`: multiply the gate matrices into one (`fused = G * fused`)
        and run the kernel once; the result is the gates applied in list order.
        An empty list returns before touching the state. */
    method ApplyFused(gates: seq<string>, q: nat, k: Constants)
      requires Valid() && (|gates| == 0 || state.Length == 0 || q < numQubits)
      modifies state
      ensures Valid()
      ensures |gates| == 0 ==> state[..] == old(state[..])
      ensures |gates| > 0 ==> Pairable(state.Length, q) &&
                              state[..] == Kernel(old(state[..]), q, Fuse(gates, k)) &&
                              state[..] == ApplyEach(old(state[..]), q, gates, k)
    {
      if |gates| == 0 {
        return;
      }
      ghost var s0 := state[..];
      var fused := IdentityMat();
      var i := 0;
      while i < |gates|
        invariant i <= |gates| && fused == Fuse(gates[..i], k)
      {
        fused := MatMul(GateMatrix(gates[i], k), fused);
        i := i + 1;
        assert gates[..i][..i - 1] == gates[..i - 1];
      }
      assert gates[..i] == gates;
      RegisterPairable(state.Length, numQubits, q);
      ApplySingleQubitGateCpu(state, q, fused);
      FusedIsSequential(s0, q, gates, k);
    }

    // -------------------------------------------------------------------------
    // Multi-qubit gates

    /** `apply_swap`: exchange the amplitudes of indices that differ only by
        having bits q1 and q2 exchanged. The loop stays inside a full vector
        exactly when both qubits are in the register or both are outside it. */
    method ApplySwap(q1: nat, q2: nat)
      requires Valid() && (state.Length == 0 || q1 == q2 || (q1 < numQubits <==> q2 < numQubits))
      modifies state
      ensures Valid() && InBounds(SwapPairs(q1, q2), state.Length)
      ensures state[..] == Permuted(old(state[..]), SwapPairs(q1, q2))
    {
      var g := SwapPairs(q1, q2);
      if state.Length > 0 {
        SwapBounds(numQubits, q1, q2);
      }
      if q1 == q2 {
        SameQubitsNoOp(state[..], q1);
        return;
      }
      PermuteInPlace(state, g);
    }

    /** `apply_cnot`: with the control bit set, exchange the amplitudes of i and
        `i ^ 2^target`. The partner stays inside a full vector exactly when the
        control is outside the register or the target is inside it. */
    method ApplyCnot(control: nat, target: nat)
      requires Valid() && (state.Length == 0 || control >= numQubits || target < numQubits)
      modifies state
      ensures Valid() && InBounds(CnotPairs(control, target), state.Length)
      ensures state[..] == Permuted(old(state[..]), CnotPairs(control, target))
    {
      if state.Length > 0 {
        CnotBounds(numQubits, control, target);
      }
      PermuteInPlace(state, CnotPairs(control, target));
    }

    /** `apply_cz`: a sign flip on both-bits-set indices; it never leaves the vector. */
    method ApplyCz(control: nat, target: nat)
      requires Valid()
      modifies state
      ensures Valid()
      ensures state[..] == CzApplied(old(state[..]), control, target)
    {
      ghost var s0 := state[..];
      var i := 0;
      while i < state.Length
        invariant i <= state.Length
        invariant forall j :: 0 <= j < i ==> state[j] == CzApplied(s0, control, target)[j]
        invariant forall j :: i <= j < state.Length ==> state[j] == s0[j]
      {
        if Bit(i, control) && Bit(i, target) {
          state[i] := Neg(state[i]);
        }
        i := i + 1;
      }
      assert state[..] == CzApplied(s0, control, target);
    }

    /** `apply_ccnot`: CNOT with two controls. */
    method ApplyCcnot(c1: nat, c2: nat, target: nat)
      requires Valid() && (state.Length == 0 || c1 >= numQubits || c2 >= numQubits || target < numQubits)
      modifies state
      ensures Valid() && InBounds(CcnotPairs(c1, c2, target), state.Length)
      ensures state[..] == Permuted(old(state[..]), CcnotPairs(c1, c2, target))
    {
      if state.Length > 0 {
        CcnotBounds(numQubits, c1, c2, target);
      }
      PermuteInPlace(state, CcnotPairs(c1, c2, target));
    }

    // -------------------------------------------------------------------------
    // Measurement: the random draw and the probabilities are inputs

    /** `measure(qubit)` once `outcome` has been drawn: zero the amplitudes that
        disagree with it and rescale the rest. */
    method Measure(q: nat, outcome: bool, scale: real) returns (r: int)
      requires Valid()
      modifies state
      ensures Valid()
      ensures r == if outcome then 1 else 0
      ensures state[..] == Collapse(old(state[..]), q, outcome, scale)
    {
      ghost var s0 := state[..];
      var i := 0;
      while i < state.Length
        invariant i <= state.Length
        invariant forall j :: 0 <= j < i ==> state[j] == Collapse(s0, q, outcome, scale)[j]
        invariant forall j :: i <= j < state.Length ==> state[j] == s0[j]
      {
        if Bit(i, q) != outcome {
          state[i] := Zero;
        } else {
          state[i] := Scale(scale, state[i]);
        }
        i := i + 1;
      }
      assert state[..] == Collapse(s0, q, outcome, scale);
      r := if outcome then 1 else 0;
    }

    /** The outcome loop run for one index (lines 374-376). */
    static method ComputeOutcome(i: nat, qs: seq<nat>) returns (outcome: nat)
      ensures outcome == OutcomeOf(i, qs)
    {
      outcome := 0;
      var j := 0;
      while j < |qs|
        invariant j <= |qs| && outcome == OutcomeOf(i, qs[..j])
      {
        if Bit(i, qs[j]) {
          outcome := Set(outcome, j);
        }
        j := j + 1;
        assert qs[..j][..j - 1] == qs[..j - 1];
      }
      assert qs[..j] == qs;
    }

    /** The collapse loop of `measure(qubits)` (lines 389-398). */
    static method CollapseJointInPlace(st: array<Complex>, qs: seq<nat>, result: nat, scale: real)
      modifies st
      ensures st[..] == JointCollapse(old(st[..]), qs, result, scale)
    {
      ghost var s0 := st[..];
      var i := 0;
      while i < st.Length
        invariant i <= st.Length
        invariant forall j :: 0 <= j < i ==> st[j] == JointCollapse(s0, qs, result, scale)[j]
        invariant forall j :: i <= j < st.Length ==> st[j] == s0[j]
      {
        var outcome := ComputeOutcome(i, qs);
        if outcome == result {
          st[i] := Scale(scale, st[i]);
        } else {
          st[i] := Zero;
        }
        i := i + 1;
      }
      assert st[..] == JointCollapse(s0, qs, result, scale);
    }

    /** `measure(qubits)` once `result` has been drawn: an empty list returns 0
        at once; otherwise the state is decompressed and every index whose
        outcome differs from `result` is zeroed, the others rescaled. */
    method MeasureJoint(qs: seq<nat>, result: nat, scale: real) returns (r: nat)
      requires Valid()
      modifies this, state
      ensures Valid()
      ensures numQubits == old(numQubits) && diskBacked == old(diskBacked) && pager == old(pager)
      ensures |qs| == 0 ==> r == 0 && state == old(state) && state[..] == old(state[..]) &&
                            isSparse == old(isSparse) && sparseState == old(sparseState)
      ensures |qs| > 0 ==> r == result && !isSparse && sparseState == map[] &&
                           state[..] == JointCollapse(old(Decompressed()), qs, result, scale)
    {
      if |qs| == 0 {
        return 0;
      }
      Decompress();
      CollapseJointInPlace(state, qs, result, scale);
      r := result;
    }

    // -------------------------------------------------------------------------
    // Reset, amplitude and the dense/sparse conversions

    /** `reset`: zero the vector at its current length and put 1 at index 0
        when it is not empty. The sparse map is not touched. */
    method Reset()
      requires Valid()
      modifies state
      ensures Valid()
      ensures state[..] == Basis0(state.Length)
      ensures !isSparse && !diskBacked ==> state[..] == Basis0(Pow2(numQubits))
    {
      var i := 0;
      while i < state.Length
        invariant i <= state.Length
        invariant forall j :: 0 <= j < i ==> state[j] == Zero
      {
        state[i] := Zero;
        i := i + 1;
      }
      if state.Length > 0 {
        state[0] := One;
      }
      assert state[..] == Basis0(state.Length);
    }

    /** `amplitude(index)`: the stored value, zero for an absent key or an index
        past the end. */
    function Amplitude(index: nat): (a: Complex)
      reads this, state
      ensures isSparse ==> a == if index in sparseState then sparseState[index] else Zero
      ensures !isSparse ==> a == if index < state.Length then state[index] else Zero
    {
      if isSparse then SparseAt(sparseState, index) else DenseAt(state[..], index)
    }

    /** `compress`: move every amplitude above the threshold into the map and
        empty the vector; a compressed state is left as it is. */
    method Compress()
      requires Valid()
      modifies this
      ensures Valid()
      ensures numQubits == old(numQubits) && diskBacked == old(diskBacked) && pager == old(pager)
      ensures isSparse
      ensures old(isSparse) ==> state == old(state) && sparseState == old(sparseState)
      ensures !old(isSparse) ==> state.Length == 0 && sparseState == CompressMap(old(state[..]))
    {
      if isSparse {
        return;
      }
      var m: map<nat, Complex> := map[];
      var i := 0;
      while i < state.Length
        invariant i <= state.Length && m == CompressMap(state[..i])
      {
        if !Negligible(state[i]) {
          m := m[i := state[i]];
        }
        i := i + 1;
        assert state[..i][..i - 1] == state[..i - 1];
      }
      assert state[..i] == state[..];
      sparseState := m;
      state := new Complex[0];
      isSparse := true;
    }

    /** The copy loop of `decompress`: store each entry of the map whose key is
        inside the zero-filled vector. */
    static method FillFromMap(a: array<Complex>, m: map<nat, Complex>)
      requires forall j :: 0 <= j < a.Length ==> a[j] == Zero
      modifies a
      ensures a[..] == Expand(m, a.Length)
    {
      var keys := m.Keys;
      while keys != {}
        invariant keys <= m.Keys
        invariant forall j :: 0 <= j < a.Length ==> a[j] == if j in m && j !in keys then m[j] else Zero
        decreases |keys|
      {
        var key :| key in keys;
        if key < a.Length {
          a[key] := m[key];
        }
        keys := keys - {key};
      }
      forall j | 0 <= j < a.Length
        ensures a[..][j] == Expand(m, a.Length)[j]
      {
      }
    }

    /** `decompress`: rebuild the full vector from the map (keys past the end
        are skipped) and clear the map; a dense state is left as it is. */
    method Decompress()
      requires Valid()
      modifies this
      ensures Valid()
      ensures numQubits == old(numQubits) && diskBacked == old(diskBacked) && pager == old(pager)
      ensures !isSparse && sparseState == map[]
      ensures state[..] == old(Decompressed())
      ensures old(isSparse) ==> fresh(state) && state.Length == Pow2(numQubits)
      ensures !old(isSparse) ==> state == old(state)
    {
      if !isSparse {
        return;
      }
      var a := new Complex[Pow2(numQubits)](_ => Zero);
      FillFromMap(a, sparseState);
      state := a;
      sparseState := map[];
      isSparse := false;
    }

    /** `nnz`: the number of stored entries, or of amplitudes above the threshold. */
    method Nnz() returns (c: nat)
      requires Valid()
      ensures c == if isSparse then |sparseState| else NonNegligibleCount(state[..])
    {
      if isSparse {
        return |sparseState|;
      }
      c := 0;
      var i := 0;
      while i < state.Length
        invariant i <= state.Length && c == NonNegligibleCount(state[..i])
      {
        if !Negligible(state[i]) {
          c := c + 1;
        }
        i := i + 1;
        assert state[..i][..i - 1] == state[..i - 1];
      }
      assert state[..i] == state[..];
    }
  }

  // ---------------------------------------------------------------------------
  // Lemmas

  /** The gate methods' bound: an empty vector or a target inside the register
      is exactly what the kernel's loops need on a vector of 0 or 2^n amplitudes. */
  lemma RegisterPairable(len: nat, n: nat, q: nat)
    requires len == 0 || len == Pow2(n)
    ensures Pairable(len, q) <==> (len == 0 || q < n)
  {
    if len == 0 {
      PairableEmpty(q);
    } else {
      PairableFullIff(n, q);
    }
  }

  /** A state on more qubits needs at least as many bytes: once a register is
      large enough for the disk path, every larger one is too. */
  lemma DiskPathMonotone(n: nat, limitMb: nat, elemBytes: nat)
    requires DiskPath(n, limitMb, elemBytes)
    ensures DiskPath(n + 1, limitMb, elemBytes)
  {
    var b := Pow2(n) * elemBytes;
    assert Pow2(n + 1) * elemBytes == b + b;
    assert (b + b) / 1048576 >= b / 1048576;
  }

  /** A limit of 0 turns the disk path off whatever the size. */
  lemma DiskPathNeedsLimit(n: nat, elemBytes: nat)
    ensures !DiskPath(n, 0, elemBytes)
  {
  }

  /** SWAP of a qubit with itself and CNOT with control == target change nothing. */
  lemma SameQubitsNoOp(s: seq<Complex>, q: nat)
    ensures InBounds(SwapPairs(q, q), |s|) && Permuted(s, SwapPairs(q, q)) == s
    ensures InBounds(CnotPairs(q, q), |s|) && Permuted(s, CnotPairs(q, q)) == s
  {
  }

  /** CZ is its own inverse and symmetric in its two qubits. */
  lemma CzInvolution(s: seq<Complex>, c: nat, t: nat)
    ensures CzApplied(CzApplied(s, c, t), c, t) == s
    ensures CzApplied(s, c, t) == CzApplied(s, t, c)
  {
    var d := CzApplied(CzApplied(s, c, t), c, t);
    forall i | 0 <= i < |s|
      ensures d[i] == s[i]
    {
      NegNeg(s[i]);
    }
  }

  /** Bit j of index i's joint outcome is bit `qs[j]` of i, and the outcome is
      one of the 2^|qs| possible ones. */
  lemma {:induction false} OutcomeBits(i: nat, qs: seq<nat>)
    ensures OutcomeOf(i, qs) < Pow2(|qs|)
    ensures forall j :: 0 <= j < |qs| ==> Bit(OutcomeOf(i, qs), j) == Bit(i, qs[j])
    decreases |qs|
  {
    if |qs| > 0 {
      var n := |qs| - 1;
      var front := qs[..n];
      var o := OutcomeOf(i, front);
      OutcomeBits(i, front);
      HighBitClear(o, n, n);
      forall j | 0 <= j < |qs|
        ensures Bit(OutcomeOf(i, qs), j) == Bit(i, qs[j])
      {
        if j < n {
          assert front[j] == qs[j];
          if Bit(i, qs[n]) {
            SetBit(o, n, j);
          }
        } else if Bit(i, qs[n]) {
          SetBit(o, n, n);
        } else {
          HighBitClear(o, n, j);
        }
      }
      if Bit(i, qs[n]) {
        SetBitBound(o, n, n + 1);
      } else {
        Pow2Monotone(n, n + 1);
      }
    }
  }

  /** An index's outcome equals `result` exactly when the index agrees with
      `result` on every measured qubit and `result` is a possible outcome. */
  lemma OutcomeIsResult(i: nat, qs: seq<nat>, result: nat)
    ensures OutcomeOf(i, qs) == result <==> result < Pow2(|qs|) && Matches(i, qs, result)
  {
    OutcomeBits(i, qs);
    if result < Pow2(|qs|) && Matches(i, qs, result) {
      BitsDetermine(OutcomeOf(i, qs), result, |qs|);
    }
  }

  /** After the joint collapse exactly the indices agreeing with the result on
      the measured qubits survive, rescaled; all the others are zero. */
  lemma JointCollapseSurvivors(s: seq<Complex>, qs: seq<nat>, result: nat, scale: real, i: nat)
    requires i < |s|
    ensures JointCollapse(s, qs, result, scale)[i] ==
            if result < Pow2(|qs|) && Matches(i, qs, result) then Scale(scale, s[i]) else Zero
  {
    OutcomeIsResult(i, qs, result);
  }

  /** Measuring one qubit is the joint measurement of the list [q]. */
  lemma SingleIsJoint(s: seq<Complex>, q: nat, outcome: bool, scale: real)
    ensures Collapse(s, q, outcome, scale) == JointCollapse(s, [q], if outcome then 1 else 0, scale)
  {
    forall i | 0 <= i < |s|
      ensures Collapse(s, q, outcome, scale)[i] == JointCollapse(s, [q], if outcome then 1 else 0, scale)[i]
    {
      assert [q][..0] == [];
      assert OutcomeOf(i, [q]) == if Bit(i, q) then 1 else 0;
    }
  }

  /** Measuring the same qubit again, with the same outcome and no rescaling,
      changes nothing. */
  lemma CollapseIdempotent(s: seq<Complex>, q: nat, outcome: bool, scale: real)
    ensures Collapse(Collapse(s, q, outcome, scale), q, outcome, 1.0) == Collapse(s, q, outcome, scale)
  {
    var c := Collapse(s, q, outcome, scale);
    forall i | 0 <= i < |s|
      ensures Collapse(c, q, outcome, 1.0)[i] == c[i]
    {
    }
  }

  /** The initial state has exactly one amplitude above the threshold. */
  lemma {:induction false} Basis0Count(n: nat)
    requires n > 0
    ensures NonNegligibleCount(Basis0(n)) == 1
    decreases n
  {
    var b := Basis0(n);
    if n == 1 {
      assert b[..0] == [];
    } else {
      assert b[..n - 1] == Basis0(n - 1);
      Basis0Count(n - 1);
      ZeroIsNegligible();
    }
  }

  /** `compress` stores one entry per amplitude above the threshold, so `nnz`
      is the same before and after it. */
  lemma {:induction false} CompressKeepsCount(s: seq<Complex>)
    ensures |CompressMap(s)| == NonNegligibleCount(s)
    decreases |s|
  {
    if |s| > 0 {
      CompressKeepsCount(s[..|s| - 1]);
    }
  }

  /** `decompress` followed by `compress` gives the map back. */
  lemma DecompressThenCompress(m: map<nat, Complex>, n: nat)
    requires SparseValid(m, n)
    ensures CompressMap(Expand(m, n)) == m
  {
    var e := Expand(m, n);
    var c := CompressMap(e);
    ZeroIsNegligible();
    forall k | k in c
      ensures k in m && c[k] == m[k]
    {
    }
    forall k | k in m
      ensures k in c
    {
      assert k < n && e[k] == m[k];
    }
  }

  /** `decompress` of a compressed state keeps `nnz`. */
  lemma DecompressKeepsCount(m: map<nat, Complex>, n: nat)
    requires SparseValid(m, n)
    ensures NonNegligibleCount(Expand(m, n)) == |m|
  {
    DecompressThenCompress(m, n);
    CompressKeepsCount(Expand(m, n));
  }

  /** `compress` followed by `decompress` keeps every amplitude above the
      threshold and zeroes the others. */
  lemma CompressThenDecompress(s: seq<Complex>)
    ensures Expand(CompressMap(s), |s|) == Threshold(s)
  {
  }

  /** After `compress`, `amplitude` returns the old amplitude when it was above
      the threshold and zero otherwise. */
  lemma CompressAmplitude(s: seq<Complex>, i: nat)
    ensures SparseAt(CompressMap(s), i) == DenseAt(Threshold(s), i)
  {
  }

  /** `decompress` changes no amplitude. */
  lemma DecompressAmplitude(m: map<nat, Complex>, n: nat, i: nat)
    requires SparseValid(m, n)
    ensures DenseAt(Expand(m, n), i) == SparseAt(m, i)
  {
  }

  /** `amplitude` reads the same value whichever form the state is in. */
  lemma AmplitudeOfDecompressed(w: Wavefunction, i: nat)
    requires w.Valid()
    ensures w.Amplitude(i) == DenseAt(w.Decompressed(), i)
  {
  }
}

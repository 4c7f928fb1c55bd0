/** The index-level semantics of the dense gate kernels in runtime/wavefunction.cpp:
    the 2x2 matrices, their composition for fused gates, and one specification
    function per gate describing the new amplitude vector in terms of the old one.
    The in-place loops that realise them live in the Wavefunction class
    (wavefunction.dfy) and in ApplySingleQubitGateCpu below. */
module GateKernels {
  import opened ComplexNumbers
  import opened Bits

  /** A 2x2 complex matrix `{{m00, m01}, {m10, m11}}` (the source's Mat2). */
  datatype Mat2 = Mat2(m00: Complex, m01: Complex, m10: Complex, m11: Complex)

  /** The irrational constants the source computes in floating point:
      `1/std::sqrt(2)` for H and `std::exp(i*pi/4)` for T. */
  datatype Constants = Constants(invSqrt2: real, tPhase: Complex)

  function IdentityMat(): Mat2 {
    Mat2(One, Zero, Zero, One)
  }

  /** C = A * B, entry by entry as in `mat_mul`. */
  function MatMul(a: Mat2, b: Mat2): Mat2 {
    Mat2(Add(Mul(a.m00, b.m00), Mul(a.m01, b.m10)),
         Add(Mul(a.m00, b.m01), Mul(a.m01, b.m11)),
         Add(Mul(a.m10, b.m00), Mul(a.m11, b.m10)),
         Add(Mul(a.m10, b.m01), Mul(a.m11, b.m11)))
  }

  function HMat(k: Constants): Mat2 {
    var f := Complex(k.invSqrt2, 0.0);
    Mat2(f, f, f, Neg(f))
  }
  function XMat(): Mat2 { Mat2(Zero, One, One, Zero) }
  function YMat(): Mat2 { Mat2(Zero, MinusI, I, Zero) }
  function ZMat(): Mat2 { Mat2(One, Zero, Zero, MinusOne) }
  function SMat(): Mat2 { Mat2(One, Zero, Zero, I) }
  function TMat(k: Constants): Mat2 { Mat2(One, Zero, Zero, k.tPhase) }

  /** `gate_matrix`: the matrix of a named single-qubit gate; any other name is the identity. */
  function GateMatrix(g: string, k: Constants): (m: Mat2)
    ensures g !in {"H", "X", "Y", "Z", "S", "T"} ==> m == IdentityMat()
  {
    if g == "H" then HMat(k)
    else if g == "X" then XMat()
    else if g == "Y" then YMat()
    else if g == "Z" then ZMat()
    else if g == "S" then SMat()
    else if g == "T" then TMat(k)
    else IdentityMat()
  }

  /** The fused matrix G_k * ... * G_1 of a gate list, as the loop in `apply_fused`
      accumulates it (`fused = mat_mul(gate_matrix(g), fused)`). */
  function Fuse(gates: seq<string>, k: Constants): Mat2 {
    if |gates| == 0 then IdentityMat()
    else MatMul(GateMatrix(gates[|gates| - 1], k), Fuse(gates[..|gates| - 1], k))
  }

  // ---------------------------------------------------------------------------
  // The strided single-qubit kernel

  /** The loops of `apply_single_qubit_gate_cpu` stay inside the vector exactly
      when its length is a multiple of the block size 2 * 2^t (an empty vector
      included). Divisibility by 2^(t+1) is written as t + 1 halvings. */
  predicate Pairable(len: nat, t: nat) {
    len % 2 == 0 && (t == 0 || Pairable(len / 2, t - 1))
  }

  /** A full register of n qubits can be paired on any of its qubits. */
  lemma {:induction false} PairableFull(n: nat, t: nat)
    requires t < n
    ensures Pairable(Pow2(n), t)
    decreases t
  {
    if t > 0 {
      PairableFull(n - 1, t - 1);
    }
  }

  /** ... and on no other qubit: 2^n is not a multiple of 2^(t+1) when t >= n. */
  lemma {:induction false} NotPairableBeyond(n: nat, t: nat)
    requires n <= t
    ensures !Pairable(Pow2(n), t)
    decreases n
  {
    if n > 0 {
      assert Pow2(n) / 2 == Pow2(n - 1);
      NotPairableBeyond(n - 1, t - 1);
    }
  }

  /** The kernel's loops fit a full register of n qubits exactly when t < n. */
  lemma PairableFullIff(n: nat, t: nat)
    ensures Pairable(Pow2(n), t) <==> t < n
  {
    if t < n {
      PairableFull(n, t);
    } else {
      NotPairableBeyond(n, t);
    }
  }

  lemma {:induction false} PairableEmpty(t: nat)
    ensures Pairable(0, t)
    decreases t
  {
    if t > 0 {
      PairableEmpty(t - 1);
    }
  }

  /** The next block starts on a block boundary too. */
  lemma {:induction false} PairableNext(i: nat, t: nat)
    requires Pairable(i, t)
    ensures Pairable(i + 2 * Pow2(t), t)
    decreases t
  {
    if t > 0 {
      assert (i + 2 * Pow2(t)) / 2 == i / 2 + 2 * Pow2(t - 1);
      PairableNext(i / 2, t - 1);
    }
  }

  /** A block that starts inside a pairable vector ends inside it. */
  lemma {:induction false} BlockFits(i: nat, len: nat, t: nat)
    requires Pairable(i, t) && Pairable(len, t) && i < len
    ensures i + 2 * Pow2(t) <= len
    decreases t
  {
    if t > 0 {
      BlockFits(i / 2, len / 2, t - 1);
    }
  }

  /** Inside a block of 2^(t+1) indices the lower half has bit t clear and the
      upper half has it set. */
  lemma {:induction false} BlockBit(i: nat, t: nat, r: nat)
    requires Pairable(i, t) && r < 2 * Pow2(t)
    ensures Bit(i + r, t) == (r >= Pow2(t))
    decreases t
  {
    if t > 0 {
      assert (i + r) / 2 == i / 2 + r / 2;
      BlockBit(i / 2, t - 1, r / 2);
    }
  }

  /** Every index of a pairable vector has its partner `i ^ 2^t` inside the vector. */
  lemma {:induction false} PartnerInRange(len: nat, t: nat, i: nat)
    requires Pairable(len, t) && i < len
    ensures Flip(i, t) < len
    decreases t
  {
    if !Bit(i, t) && t > 0 {
      PartnerInRange(len / 2, t - 1, i / 2);
      assert Flip(i / 2, t - 1) == i / 2 + Pow2(t - 1);
    }
  }

  /** The new amplitude at index i: rows of the matrix act on the pair
      (a, b) = (old[i], old[i + 2^t]) whose lower index has bit t clear. */
  function KernelAt(s: seq<Complex>, t: nat, m: Mat2, i: nat): Complex
    requires Pairable(|s|, t) && i < |s|
  {
    PartnerInRange(|s|, t, i);
    if !Bit(i, t) then Row(m.m00, m.m01, s[i], s[Flip(i, t)])
    else Row(m.m10, m.m11, s[Flip(i, t)], s[i])
  }

  /** One row (p, q) of a matrix applied to the column (a, b). */
  function Row(p: Complex, q: Complex, a: Complex, b: Complex): Complex {
    Add(Mul(p, a), Mul(q, b))
  }

  function Kernel(s: seq<Complex>, t: nat, m: Mat2): (r: seq<Complex>)
    requires Pairable(|s|, t)
    ensures |r| == |s|
  {
    seq(|s|, i requires 0 <= i < |s| => KernelAt(s, t, m, i))
  }

  /** `apply_single_qubit_gate_cpu`: for every block of 2^(t+1) indices and every
      offset j in its lower half, rewrite the pair (i + j, i + j + 2^t) in place. */
  method ApplySingleQubitGateCpu(st: array<Complex>, target: nat, mat: Mat2)
    requires Pairable(st.Length, target)
    modifies st
    ensures st[..] == Kernel(old(st[..]), target, mat)
  {
    ghost var s0 := st[..];
    var step := Pow2(target);
    var i := 0;
    PairableEmpty(target);
    while i < st.Length
      invariant Pairable(i, target) && i <= st.Length
      invariant st[..] == Kernel(s0, target, mat)[..i] + s0[i..]
    {
      BlockFits(i, st.Length, target);
      ghost var before := st[..];
      ApplyBlock(st, i, step, mat);
      BlockStep(s0, target, mat, i, before, st[..]);
      PairableNext(i, target);
      i := i + 2 * step;
    }
    assert Kernel(s0, target, mat)[..i] == Kernel(s0, target, mat);
  }

  /** The state after the inner loop has handled the offsets below j of the block
      [i, i + 2 * step): those pairs hold their row products, the rest is `s`. */
  function BlockPartial(s: seq<Complex>, i: nat, step: nat, j: nat, m: Mat2): (r: seq<Complex>)
    requires i + 2 * step <= |s| && j <= step
    ensures |r| == |s|
  {
    seq(|s|, k requires 0 <= k < |s| =>
      if i <= k < i + j then Row(m.m00, m.m01, s[k], s[k + step])
      else if i + step <= k < i + step + j then Row(m.m10, m.m11, s[k - step], s[k])
      else s[k])
  }

  /** The inner loop of the kernel on one block. */
  method ApplyBlock(st: array<Complex>, i: nat, step: nat, mat: Mat2)
    requires i + 2 * step <= st.Length
    modifies st
    ensures st[..] == BlockPartial(old(st[..]), i, step, step, mat)
  {
    ghost var sb := st[..];
    var j := 0;
    assert BlockPartial(sb, i, step, 0, mat) == sb;
    while j < step
      invariant 0 <= j <= step
      invariant st[..] == BlockPartial(sb, i, step, j, mat)
    {
      var a := st[i + j];
      var b := st[i + j + step];
      BlockPartialStep(sb, i, step, j, mat);
      st[i + j] := Row(mat.m00, mat.m01, a, b);
      st[i + j + step] := Row(mat.m10, mat.m11, a, b);
      j := j + 1;
    }
  }

  /** One iteration of the inner loop extends the handled offsets by one. */
  lemma BlockPartialStep(s: seq<Complex>, i: nat, step: nat, j: nat, m: Mat2)
    requires i + 2 * step <= |s| && j < step
    ensures BlockPartial(s, i, step, j, m)[i + j] == s[i + j]
    ensures BlockPartial(s, i, step, j, m)[i + j + step] == s[i + j + step]
    ensures BlockPartial(s, i, step, j, m)
              [i + j := Row(m.m00, m.m01, s[i + j], s[i + j + step])]
              [i + j + step := Row(m.m10, m.m11, s[i + j], s[i + j + step])]
         == BlockPartial(s, i, step, j + 1, m)
  {
    var lhs := BlockPartial(s, i, step, j, m)
                [i + j := Row(m.m00, m.m01, s[i + j], s[i + j + step])]
                [i + j + step := Row(m.m10, m.m11, s[i + j], s[i + j + step])];
    forall k | 0 <= k < |s|
      ensures lhs[k] == BlockPartial(s, i, step, j + 1, m)[k]
    {
      BlockPartialStepAt(s, i, step, j, m, k);
    }
  }

  lemma BlockPartialStepAt(s: seq<Complex>, i: nat, step: nat, j: nat, m: Mat2, k: nat)
    requires i + 2 * step <= |s| && j < step && k < |s|
    ensures BlockPartial(s, i, step, j, m)
              [i + j := Row(m.m00, m.m01, s[i + j], s[i + j + step])]
              [i + j + step := Row(m.m10, m.m11, s[i + j], s[i + j + step])][k]
         == BlockPartial(s, i, step, j + 1, m)[k]
  {
  }

  /** Handling one whole block moves the boundary between kernel output and
      untouched input forward by one block. */
  lemma BlockStep(s: seq<Complex>, t: nat, m: Mat2, i: nat, before: seq<Complex>, after: seq<Complex>)
    requires Pairable(|s|, t) && Pairable(i, t) && i + 2 * Pow2(t) <= |s|
    requires before == Kernel(s, t, m)[..i] + s[i..]
    requires after == BlockPartial(before, i, Pow2(t), Pow2(t), m)
    ensures after == Kernel(s, t, m)[..i + 2 * Pow2(t)] + s[i + 2 * Pow2(t)..]
  {
    var lhs := after;
    forall k | 0 <= k < |s|
      ensures lhs[k] == (Kernel(s, t, m)[..i + 2 * Pow2(t)] + s[i + 2 * Pow2(t)..])[k]
    {
      BlockStepAt(s, t, m, i, k);
    }
  }

  lemma BlockStepAt(s: seq<Complex>, t: nat, m: Mat2, i: nat, k: nat)
    requires Pairable(|s|, t) && Pairable(i, t) && i + 2 * Pow2(t) <= |s| && k < |s|
    ensures BlockPartial(Kernel(s, t, m)[..i] + s[i..], i, Pow2(t), Pow2(t), m)[k]
         == (Kernel(s, t, m)[..i + 2 * Pow2(t)] + s[i + 2 * Pow2(t)..])[k]
  {
    var step := Pow2(t);
    var g := Kernel(s, t, m);
    if i <= k < i + step {
      KernelAtLow(s, t, m, i, k);
      assert g[k] == Row(m.m00, m.m01, s[k], s[k + step]);
    } else if i + step <= k < i + 2 * step {
      KernelAtHigh(s, t, m, i, k);
      assert g[k] == Row(m.m10, m.m11, s[k - step], s[k]);
    }
    BlockSplice(s, g, i, step, m, k);
  }

  /** Splicing one block of `g` into `s`, position by position, read on the state
      whose prefix below i already comes from `g`. */
  lemma BlockSplice(s: seq<Complex>, g: seq<Complex>, i: nat, step: nat, m: Mat2, k: nat)
    requires |g| == |s| && i + 2 * step <= |s| && k < |s|
    requires i <= k < i + step ==> g[k] == Row(m.m00, m.m01, s[k], s[k + step])
    requires i + step <= k < i + 2 * step ==> g[k] == Row(m.m10, m.m11, s[k - step], s[k])
    ensures BlockPartial(g[..i] + s[i..], i, step, step, m)[k] == (g[..i + 2 * step] + s[i + 2 * step..])[k]
  {
    var u := g[..i] + s[i..];
    if k < i {
      assert u[k] == g[k];
    } else if k < i + step {
      assert u[k] == s[k] && u[k + step] == s[k + step];
    } else if k < i + 2 * step {
      assert u[k] == s[k] && u[k - step] == s[k - step];
    } else {
      assert u[k] == s[k];
    }
  }

  /** The kernel's value in the lower half of a block: row 0 on (s[k], s[k + 2^t]). */
  lemma KernelAtLow(s: seq<Complex>, t: nat, m: Mat2, i: nat, k: nat)
    requires Pairable(|s|, t) && Pairable(i, t) && i <= k < i + Pow2(t) && i + 2 * Pow2(t) <= |s|
    ensures KernelAt(s, t, m, k) == Row(m.m00, m.m01, s[k], s[k + Pow2(t)])
  {
    BlockBit(i, t, k - i);
    assert Flip(k, t) == k + Pow2(t);
  }

  /** The kernel's value in the upper half of a block: row 1 on (s[k - 2^t], s[k]). */
  lemma KernelAtHigh(s: seq<Complex>, t: nat, m: Mat2, i: nat, k: nat)
    requires Pairable(|s|, t) && Pairable(i, t) && i + Pow2(t) <= k < i + 2 * Pow2(t) && i + 2 * Pow2(t) <= |s|
    ensures KernelAt(s, t, m, k) == Row(m.m10, m.m11, s[k - Pow2(t)], s[k])
  {
    BlockBit(i, t, k - i);
    assert Flip(k, t) == k - Pow2(t);
  }

  /** Composing two kernels on the same target is the kernel of the matrix product. */
  lemma KernelCompose(s: seq<Complex>, t: nat, a: Mat2, b: Mat2)
    requires Pairable(|s|, t)
    ensures Kernel(Kernel(s, t, a), t, b) == Kernel(s, t, MatMul(b, a))
  {
    var s1 := Kernel(s, t, a);
    var s2 := Kernel(s1, t, b);
    var r := Kernel(s, t, MatMul(b, a));
    forall i | 0 <= i < |s|
      ensures s2[i] == r[i]
    {
      PartnerInRange(|s|, t, i);
      var j := Flip(i, t);
      FlipFlip(i, t);
      FlipBit(i, t, t);
      if !Bit(i, t) {
        PairCompose(b.m00, b.m01, a.m00, a.m01, a.m10, a.m11, s[i], s[j]);
      } else {
        PairCompose(b.m10, b.m11, a.m00, a.m01, a.m10, a.m11, s[j], s[i]);
        assert s1[i] == Add(Mul(a.m10, s[j]), Mul(a.m11, s[i]));
      }
    }
  }

  /** One row (p, q) of B applied to the column A * (x, y). */
  lemma PairCompose(p: Complex, q: Complex, a00: Complex, a01: Complex, a10: Complex, a11: Complex,
                    x: Complex, y: Complex)
    ensures Add(Mul(p, Add(Mul(a00, x), Mul(a01, y))), Mul(q, Add(Mul(a10, x), Mul(a11, y))))
         == Add(Mul(Add(Mul(p, a00), Mul(q, a10)), x), Mul(Add(Mul(p, a01), Mul(q, a11)), y))
  {
    MulDistLeft(p, Mul(a00, x), Mul(a01, y));
    MulDistLeft(q, Mul(a10, x), Mul(a11, y));
    MulAssoc(p, a00, x);
    MulAssoc(p, a01, y);
    MulAssoc(q, a10, x);
    MulAssoc(q, a11, y);
    MulDistRight(Mul(p, a00), Mul(q, a10), x);
    MulDistRight(Mul(p, a01), Mul(q, a11), y);
  }

  /** The identity matrix leaves every amplitude as it was. */
  lemma KernelIdentity(s: seq<Complex>, t: nat)
    requires Pairable(|s|, t)
    ensures Kernel(s, t, IdentityMat()) == s
  {
    forall i | 0 <= i < |s|
      ensures Kernel(s, t, IdentityMat())[i] == s[i]
    {
      PartnerInRange(|s|, t, i);
    }
  }

  /** The gates of a list applied one after the other, in list order. */
  function ApplyEach(s: seq<Complex>, t: nat, gates: seq<string>, k: Constants): (r: seq<Complex>)
    requires Pairable(|s|, t)
    ensures |r| == |s|
  {
    if |gates| == 0 then s
    else Kernel(ApplyEach(s, t, gates[..|gates| - 1], k), t, GateMatrix(gates[|gates| - 1], k))
  }

  /** `apply_fused` is sound: one kernel with the fused matrix equals the gates
      applied one by one, in list order. */
  lemma {:induction false} FusedIsSequential(s: seq<Complex>, t: nat, gates: seq<string>, k: Constants)
    requires Pairable(|s|, t)
    ensures Kernel(s, t, Fuse(gates, k)) == ApplyEach(s, t, gates, k)
  {
    if |gates| == 0 {
      KernelIdentity(s, t);
    } else {
      var front := gates[..|gates| - 1];
      FusedIsSequential(s, t, front, k);
      KernelCompose(s, t, Fuse(front, k), GateMatrix(gates[|gates| - 1], k));
    }
  }

  /** X, Y and Z square to the identity matrix and S squares to Z. */
  lemma SquaredPaulis()
    ensures MatMul(XMat(), XMat()) == IdentityMat()
    ensures MatMul(YMat(), YMat()) == IdentityMat()
    ensures MatMul(ZMat(), ZMat()) == IdentityMat()
    ensures MatMul(SMat(), SMat()) == ZMat()
  {
    SquaredX();
    SquaredY();
    SquaredZ();
    SquaredS();
  }

  lemma SquaredX() ensures MatMul(XMat(), XMat()) == IdentityMat() {}
  lemma SquaredY() ensures MatMul(YMat(), YMat()) == IdentityMat() {}
  lemma SquaredZ() ensures MatMul(ZMat(), ZMat()) == IdentityMat() {}
  lemma SquaredS() ensures MatMul(SMat(), SMat()) == ZMat() {}

  /** H squares to the identity when its constant is a true 1/sqrt(2). */
  lemma SquaredHadamard(k: Constants)
    requires 2.0 * k.invSqrt2 * k.invSqrt2 == 1.0
    ensures MatMul(HMat(k), HMat(k)) == IdentityMat()
  {
    var f := k.invSqrt2;
    var h := HMat(k);
    assert Mul(h.m00, h.m00) == Complex(f * f, 0.0);
    assert Mul(h.m01, h.m10) == Complex(f * f, 0.0);
    assert Mul(h.m00, h.m01) == Complex(f * f, 0.0);
    assert Mul(h.m01, h.m11) == Complex(-(f * f), 0.0);
    assert Mul(h.m10, h.m00) == Complex(f * f, 0.0);
    assert Mul(h.m11, h.m10) == Complex(-(f * f), 0.0);
    assert Mul(h.m11, h.m11) == Complex(f * f, 0.0);
  }

  /** Two kernels whose matrices multiply to the identity undo each other. */
  lemma KernelInverse(s: seq<Complex>, t: nat, a: Mat2, b: Mat2)
    requires Pairable(|s|, t) && MatMul(b, a) == IdentityMat()
    ensures Kernel(Kernel(s, t, a), t, b) == s
  {
    KernelCompose(s, t, a, b);
    KernelIdentity(s, t);
  }

  /** Applying X, Y or Z twice restores the state. */
  lemma PauliInvolutions(s: seq<Complex>, t: nat)
    requires Pairable(|s|, t)
    ensures Kernel(Kernel(s, t, XMat()), t, XMat()) == s
    ensures Kernel(Kernel(s, t, YMat()), t, YMat()) == s
    ensures Kernel(Kernel(s, t, ZMat()), t, ZMat()) == s
  {
    SquaredPaulis();
    KernelInverse(s, t, XMat(), XMat());
    KernelInverse(s, t, YMat(), YMat());
    KernelInverse(s, t, ZMat(), ZMat());
  }

  /** Applying H twice restores the state when its constant is a true 1/sqrt(2). */
  lemma HadamardInvolution(s: seq<Complex>, t: nat, k: Constants)
    requires Pairable(|s|, t) && 2.0 * k.invSqrt2 * k.invSqrt2 == 1.0
    ensures Kernel(Kernel(s, t, HMat(k)), t, HMat(k)) == s
  {
    SquaredHadamard(k);
    KernelInverse(s, t, HMat(k), HMat(k));
  }

  /** S applied twice is Z, so four applications restore the state. */
  lemma PhaseOrderFour(s: seq<Complex>, t: nat)
    requires Pairable(|s|, t)
    ensures Kernel(Kernel(s, t, SMat()), t, SMat()) == Kernel(s, t, ZMat())
    ensures Kernel(Kernel(Kernel(Kernel(s, t, SMat()), t, SMat()), t, SMat()), t, SMat()) == s
  {
    SquaredPaulis();
    KernelCompose(s, t, SMat(), SMat());
    var z := Kernel(s, t, ZMat());
    KernelCompose(z, t, SMat(), SMat());
    KernelInverse(s, t, ZMat(), ZMat());
  }

  /** The index-level effect of X: every amplitude moves to its partner index. */
  lemma XMovesAmplitudes(s: seq<Complex>, t: nat, i: nat)
    requires Pairable(|s|, t) && i < |s|
    ensures Flip(i, t) < |s| && Kernel(s, t, XMat())[i] == s[Flip(i, t)]
  {
    PartnerInRange(|s|, t, i);
  }
}

/** The index permutations behind CNOT, CCNOT and SWAP in runtime/wavefunction.cpp.
    Each gate pairs an index i with a partner index and exchanges the two
    amplitudes when i is "active"; the source's loops visit i in increasing
    order and swap each pair from its lower member. */
module PairSwaps {
  import opened ComplexNumbers
  import opened Bits

  datatype Pairing =
    | CnotPairs(control: nat, target: nat)
    | CcnotPairs(c1: nat, c2: nat, target: nat)
    | SwapPairs(q1: nat, q2: nat)

  /** Indices whose amplitude the gate moves. */
  predicate Active(g: Pairing, i: nat) {
    match g
    case CnotPairs(c, t) => c != t && Bit(i, c)
    case CcnotPairs(c1, c2, t) => t != c1 && t != c2 && Bit(i, c1) && Bit(i, c2)
    case SwapPairs(a, b) => a != b && Bit(i, a) != Bit(i, b)
  }

  /** The index an active amplitude is exchanged with. */
  function Partner(g: Pairing, i: nat): nat {
    match g
    case CnotPairs(_, t) => Flip(i, t)
    case CcnotPairs(_, _, t) => Flip(i, t)
    case SwapPairs(a, b) => SwapBits(i, a, b)
  }

  /** Partners of active indices of a vector of length len stay inside it. */
  ghost predicate InBounds(g: Pairing, len: nat) {
    forall i :: 0 <= i < len && Active(g, i) ==> Partner(g, i) < len
  }

  /** The partner relation is a fixed-point-free involution on active indices. */
  lemma PairFacts(g: Pairing, i: nat)
    requires Active(g, i)
    ensures Partner(g, i) != i
    ensures Partner(g, Partner(g, i)) == i
    ensures Active(g, Partner(g, i))
  {
    match g
    case CnotPairs(c, t) =>
      FlipNe(i, t);
      FlipFlip(i, t);
      FlipBitOfOther(i, t, c);
    case CcnotPairs(c1, c2, t) =>
      FlipNe(i, t);
      FlipFlip(i, t);
      FlipBitOfOther(i, t, c1);
      FlipBitOfOther(i, t, c2);
    case SwapPairs(a, b) =>
      SwapBitsBit(i, a, b, a);
      SwapBitsBit(i, a, b, b);
      SwapBitsInvolution(i, a, b);
  }

  /** The gate's effect on a vector: every active index takes its partner's
      amplitude, every other index keeps its own. */
  function Permuted(s: seq<Complex>, g: Pairing): (r: seq<Complex>)
    requires InBounds(g, |s|)
    ensures |r| == |s|
  {
    seq(|s|, i requires 0 <= i < |s| => if Active(g, i) then s[Partner(g, i)] else s[i])
  }

  /** Every pairing gate is its own inverse. */
  lemma PermutedInvolution(s: seq<Complex>, g: Pairing)
    requires InBounds(g, |s|)
    ensures Permuted(Permuted(s, g), g) == s
  {
    var p := Permuted(s, g);
    var q := Permuted(p, g);
    forall i | 0 <= i < |s|
      ensures q[i] == s[i]
    {
      if Active(g, i) {
        PairFacts(g, i);
      }
    }
  }

  // ---------------------------------------------------------------------------
  // The loop: indices below i have been visited

  function Lower(g: Pairing, i: nat): nat {
    if Partner(g, i) < i then Partner(g, i) else i
  }

  /** The vector after the loop has visited the indices below i: a pair has been
      exchanged once its lower member has been visited. */
  function SwapPartial(s: seq<Complex>, g: Pairing, i: nat): (r: seq<Complex>)
    requires InBounds(g, |s|)
    ensures |r| == |s|
  {
    seq(|s|, k requires 0 <= k < |s| =>
      if Active(g, k) && Lower(g, k) < i then s[Partner(g, k)] else s[k])
  }

  /** Visiting index i: the pair is exchanged exactly when i is active and is
      the lower member, and then both members still hold their old values. */
  lemma SwapStep(s: seq<Complex>, g: Pairing, i: nat)
    requires InBounds(g, |s|) && i < |s|
    ensures Active(g, i) && i < Partner(g, i) ==>
      var cur := SwapPartial(s, g, i);
      var j := Partner(g, i);
      j < |s| && cur[i] == s[i] && cur[j] == s[j] &&
      cur[i := cur[j]][j := cur[i]] == SwapPartial(s, g, i + 1)
    ensures !(Active(g, i) && i < Partner(g, i)) ==> SwapPartial(s, g, i) == SwapPartial(s, g, i + 1)
  {
    var cur := SwapPartial(s, g, i);
    var next := SwapPartial(s, g, i + 1);
    if Active(g, i) && i < Partner(g, i) {
      var j := Partner(g, i);
      PairFacts(g, i);
      var upd := cur[i := cur[j]][j := cur[i]];
      forall k | 0 <= k < |s|
        ensures upd[k] == next[k]
      {
        SwapStepAt(s, g, i, k);
      }
    } else {
      forall k | 0 <= k < |s|
        ensures cur[k] == next[k]
      {
        SwapStepAt(s, g, i, k);
      }
    }
  }

  /** Only the pair whose lower member is i changes between visits i and i + 1. */
  lemma SwapStepAt(s: seq<Complex>, g: Pairing, i: nat, k: nat)
    requires InBounds(g, |s|) && i < |s| && k < |s|
    ensures Active(g, k) && Lower(g, k) == i ==> Active(g, i) && i < Partner(g, i) && (k == i || k == Partner(g, i))
    ensures !(Active(g, k) && Lower(g, k) == i) ==>
      SwapPartial(s, g, i)[k] == SwapPartial(s, g, i + 1)[k]
  {
    if Active(g, k) && Lower(g, k) == i {
      PairFacts(g, k);
      if Partner(g, k) < k {
        PairFacts(g, Partner(g, k));
      }
    }
  }

  /** After the last index every pair has been visited. */
  lemma SwapDone(s: seq<Complex>, g: Pairing)
    requires InBounds(g, |s|)
    ensures SwapPartial(s, g, |s|) == Permuted(s, g)
  {
  }

  lemma SwapStart(s: seq<Complex>, g: Pairing)
    requires InBounds(g, |s|)
    ensures SwapPartial(s, g, 0) == s
  {
  }

  /** The source's own loop test at index i: `(i & cbit) && !(i & tbit)` for
      CNOT, both controls and a clear target for CCNOT, and for SWAP two
      different bits with `i < j` (after the early return on `q1 == q2`). */
  predicate Visits(g: Pairing, i: nat) {
    match g
    case CnotPairs(c, t) => Bit(i, c) && !Bit(i, t)
    case CcnotPairs(c1, c2, t) => Bit(i, c1) && Bit(i, c2) && !Bit(i, t)
    case SwapPairs(a, b) => a != b && Bit(i, a) != Bit(i, b) && i < SwapBits(i, a, b)
  }

  /** The index the source exchanges with: `i | tbit`, or `i ^ bit1 ^ bit2`. */
  function Target(g: Pairing, i: nat): nat {
    match g
    case CnotPairs(_, t) => Set(i, t)
    case CcnotPairs(_, _, t) => Set(i, t)
    case SwapPairs(a, b) => SwapBits(i, a, b)
  }

  /** The source's test picks out exactly the lower member of each active pair,
      and its `j` is that member's partner. */
  lemma VisitsLower(g: Pairing, i: nat)
    ensures Visits(g, i) <==> Active(g, i) && i < Partner(g, i)
    ensures Visits(g, i) ==> Target(g, i) == Partner(g, i)
  {
    match g
    case CnotPairs(c, t) =>
    case CcnotPairs(c1, c2, t) =>
    case SwapPairs(a, b) =>
  }

  /** `std::swap(state[i], state[j])`. */
  method Exchange(a: array<Complex>, i: nat, j: nat)
    requires i < a.Length && j < a.Length
    modifies a
    ensures a[..] == old(a[..])[i := old(a[j])][j := old(a[i])]
  {
    var t := a[i];
    a[i] := a[j];
    a[j] := t;
  }

  /** The loop shared by `apply_cnot`, `apply_ccnot` and `apply_swap`: visit
      every index in order and exchange each pair from its lower member. */
  method PermuteInPlace(st: array<Complex>, g: Pairing)
    requires InBounds(g, st.Length)
    modifies st
    ensures st[..] == Permuted(old(st[..]), g)
  {
    ghost var s0 := st[..];
    SwapStart(s0, g);
    var i := 0;
    while i < st.Length
      invariant i <= st.Length
      invariant st[..] == SwapPartial(s0, g, i)
    {
      SwapStep(s0, g, i);
      VisitsLower(g, i);
      if Visits(g, i) {
        var j := Target(g, i);
        Exchange(st, i, j);
      }
      i := i + 1;
    }
    SwapDone(s0, g);
  }

  // ---------------------------------------------------------------------------
  // When do the loops stay in bounds? For a full register of n qubits,
  // exactly under the conditions below.

  /** CNOT on a register of n qubits reads and writes inside the vector exactly
      when the control is outside the register or the target is inside it. */
  lemma {:induction false} CnotBounds(n: nat, c: nat, t: nat)
    ensures InBounds(CnotPairs(c, t), Pow2(n)) <==> (c >= n || t < n)
  {
    var g := CnotPairs(c, t);
    if c >= n || t < n {
      forall i | 0 <= i < Pow2(n) && Active(g, i)
        ensures Partner(g, i) < Pow2(n)
      {
        if c >= n {
          HighBitClear(i, n, c);
        } else {
          FlipBound(i, t, n);
        }
      }
    } else {
      var w := Pow2(n) - 1;
      AllOnes(n, c);
      AllOnes(n, t);
      assert Active(g, w) && Partner(g, w) >= Pow2(n);
    }
  }

  /** CCNOT stays in bounds exactly when a control is outside the register or
      the target is inside it. */
  lemma {:induction false} CcnotBounds(n: nat, c1: nat, c2: nat, t: nat)
    ensures InBounds(CcnotPairs(c1, c2, t), Pow2(n)) <==> (c1 >= n || c2 >= n || t < n)
  {
    var g := CcnotPairs(c1, c2, t);
    if c1 >= n || c2 >= n || t < n {
      forall i | 0 <= i < Pow2(n) && Active(g, i)
        ensures Partner(g, i) < Pow2(n)
      {
        if c1 >= n {
          HighBitClear(i, n, c1);
        } else if c2 >= n {
          HighBitClear(i, n, c2);
        } else {
          FlipBound(i, t, n);
        }
      }
    } else {
      var w := Pow2(n) - 1;
      AllOnes(n, c1);
      AllOnes(n, c2);
      AllOnes(n, t);
      assert Active(g, w) && Partner(g, w) >= Pow2(n);
    }
  }

  /** SWAP stays in bounds exactly when both qubits are inside the register,
      both are outside it, or they are the same qubit. */
  lemma {:induction false} SwapBounds(n: nat, a: nat, b: nat)
    ensures InBounds(SwapPairs(a, b), Pow2(n)) <==> (a == b || (a < n <==> b < n))
  {
    var g := SwapPairs(a, b);
    if a == b || (a < n <==> b < n) {
      forall i | 0 <= i < Pow2(n) && Active(g, i)
        ensures Partner(g, i) < Pow2(n)
      {
        if a >= n {
          HighBitClear(i, n, a);
          HighBitClear(i, n, b);
        } else {
          SwapBitsBound(i, a, b, n);
        }
      }
    } else {
      var w := Pow2(n) - 1;
      AllOnes(n, a);
      AllOnes(n, b);
      assert Active(g, w);
      if a < n {
        OutOfRangeSwap(n, a, b);
      } else {
        OutOfRangeSwap(n, b, a);
        SwapBitsSymmetric(w, a, b);
      }
    }
  }

  /** Exchanging bit a < n (set) with bit b >= n (clear) of 2^n - 1 leaves [0, 2^n). */
  lemma OutOfRangeSwap(n: nat, a: nat, b: nat)
    requires a < n <= b
    ensures SwapBits(Pow2(n) - 1, a, b) >= Pow2(n)
  {
    var w := Pow2(n) - 1;
    AllOnes(n, a);
    AllOnes(n, b);
    ClearBit(w, a, b);
    Pow2Monotone(a + 1, n);
    Pow2Monotone(n, b);
  }

  lemma SwapBitsSymmetric(i: nat, a: nat, b: nat)
    ensures SwapBits(i, a, b) == SwapBits(i, b, a)
  {
    FlipCommute(i, a, b);
  }
}

/** The map-based state of runtime/sparse_wavefunction.cpp: only the basis
    indices that have received an amplitude are stored. X, Y, H and CNOT rebuild
    the map from scratch (`out[key] += value` for every entry, then a swap);
    Z, S and T rescale values in place; `measure` erases the entries that
    disagree with the outcome. */
module SparseStates {
  import opened ComplexNumbers
  import opened Bits
  import opened GateKernels
  import opened PairSwaps
  import opened DenseWavefunction

  // ---------------------------------------------------------------------------
  // The rebuilding gates

  /** `out[key] += v`: an absent key starts from zero. */
  function AddTo(out: map<nat, Complex>, key: nat, v: Complex): map<nat, Complex> {
    out[key := Add(SparseAt(out, key), v)]
  }

  /** The four gates that rebuild the map. HMove carries `1/std::sqrt(2.0)`. */
  datatype Rebuild = XMove(q: nat) | YMove(q: nat) | HMove(q: nat, f: real) | CnotMove(c: nat, t: nat)

  /** The bit whose pairs (k, k ^ 2^axis) the gate acts on. */
  function Axis(g: Rebuild): nat {
    match g
    case XMove(q) => q
    case YMove(q) => q
    case HMove(q, _) => q
    case CnotMove(_, t) => t
  }

  /** One iteration of the rebuilding loop, for the entry (k, v), as the source writes it. */
  function Step(g: Rebuild, out: map<nat, Complex>, k: nat, v: Complex): map<nat, Complex> {
    match g
    case XMove(q) => AddTo(out, Flip(k, q), v)
    case YMove(q) =>
      if Bit(k, q) then AddTo(out, Flip(k, q), Mul(MinusI, v))
      else AddTo(out, Set(k, q), Mul(I, v))
    case HMove(q, f) =>
      if Bit(k, q) then AddTo(AddTo(out, Flip(k, q), Scale(f, v)), k, Scale(-f, v))
      else AddTo(AddTo(out, k, Scale(f, v)), Set(k, q), Scale(f, v))
    case CnotMove(c, t) =>
      if Bit(k, c) then AddTo(out, Flip(k, t), v) else AddTo(out, k, v)
  }

  /** Does the entry at key k send something to the member of its pair whose
      axis bit is b? */
  predicate Sends(g: Rebuild, k: nat, b: bool) {
    match g
    case XMove(q) => b != Bit(k, q)
    case YMove(q) => b != Bit(k, q)
    case HMove(_, _) => true
    case CnotMove(c, t) => if Bit(k, c) then b != Bit(k, t) else b == Bit(k, t)
  }

  /** What the entry (k, v) sends to the member of its pair with axis bit b. */
  function Contribution(g: Rebuild, k: nat, b: bool, v: Complex): Complex {
    match g
    case XMove(_) => v
    case YMove(q) => if Bit(k, q) then Mul(MinusI, v) else Mul(I, v)
    case HMove(q, f) => if Bit(k, q) && b then Scale(-f, v) else Scale(f, v)
    case CnotMove(_, _) => v
  }

  /** The entry at key k writes to index j. */
  predicate Reaches(g: Rebuild, k: nat, j: nat) {
    (j == k || j == Flip(k, Axis(g))) && Sends(g, k, Bit(j, Axis(g)))
  }

  /** What the entry at key k, if it has been visited, has added to index j. */
  function Gift(g: Rebuild, m: map<nat, Complex>, done: set<nat>, k: nat, j: nat): Complex {
    if k in done && k in m && Reaches(g, k, j) then Contribution(g, k, Bit(j, Axis(g)), m[k]) else Zero
  }

  /** After visiting the keys in `done`, index j holds an entry exactly when
      one of the two keys of its pair has written to it ... */
  predicate Hit(g: Rebuild, m: map<nat, Complex>, done: set<nat>, j: nat) {
    (j in done && j in m && Reaches(g, j, j)) ||
    (Flip(j, Axis(g)) in done && Flip(j, Axis(g)) in m && Reaches(g, Flip(j, Axis(g)), j))
  }

  /** ... and holds the sum of what they wrote. */
  function ValueAt(g: Rebuild, m: map<nat, Complex>, done: set<nat>, j: nat): Complex {
    Add(Gift(g, m, done, j, j), Gift(g, m, done, Flip(j, Axis(g)), j))
  }

  function FlipImage(s: set<nat>, t: nat): set<nat> {
    set k | k in s :: Flip(k, t)
  }

  /** The rebuilt map once every entry has been visited. */
  function Rebuilt(g: Rebuild, m: map<nat, Complex>): map<nat, Complex> {
    map j | j in m.Keys + FlipImage(m.Keys, Axis(g)) && Hit(g, m, m.Keys, j) :: ValueAt(g, m, m.Keys, j)
  }

  lemma AddToAt(out: map<nat, Complex>, key: nat, v: Complex, j: nat)
    ensures j in AddTo(out, key, v) <==> j in out || j == key
    ensures SparseAt(AddTo(out, key, v), j) == if j == key then Add(SparseAt(out, j), v) else SparseAt(out, j)
  {
  }

  /** One iteration changes the entries of k's pair only, by k's contribution. */
  lemma StepAt(g: Rebuild, out: map<nat, Complex>, k: nat, v: Complex, j: nat)
    ensures j in Step(g, out, k, v) <==> j in out || Reaches(g, k, j)
    ensures SparseAt(Step(g, out, k, v), j) ==
            Add(SparseAt(out, j), if Reaches(g, k, j) then Contribution(g, k, Bit(j, Axis(g)), v) else Zero)
  {
    var t := Axis(g);
    var p := Flip(k, t);
    FlipNe(k, t);
    FlipBit(k, t, t);
    assert !Bit(k, t) ==> Set(k, t) == p;
    match g
    case XMove(q) =>
      AddToAt(out, p, v, j);
    case YMove(q) =>
      if Bit(k, q) { AddToAt(out, p, Mul(MinusI, v), j); } else { AddToAt(out, p, Mul(I, v), j); }
    case HMove(q, f) =>
      if Bit(k, q) {
        AddToAt(out, p, Scale(f, v), j);
        AddToAt(AddTo(out, p, Scale(f, v)), k, Scale(-f, v), j);
      } else {
        AddToAt(out, k, Scale(f, v), j);
        AddToAt(AddTo(out, k, Scale(f, v)), p, Scale(f, v), j);
      }
    case CnotMove(c, _) =>
      if Bit(k, c) { AddToAt(out, p, v, j); } else { AddToAt(out, k, v, j); }
  }

  /** Visiting key k keeps the loop invariant at index j. */
  lemma StepKeeps(g: Rebuild, m: map<nat, Complex>, done: set<nat>, out: map<nat, Complex>, k: nat, j: nat)
    requires k in m && k !in done
    requires (j in out <==> Hit(g, m, done, j)) && SparseAt(out, j) == ValueAt(g, m, done, j)
    ensures var next := Step(g, out, k, m[k]);
            (j in next <==> Hit(g, m, done + {k}, j)) && SparseAt(next, j) == ValueAt(g, m, done + {k}, j)
  {
    var t := Axis(g);
    StepAt(g, out, k, m[k], j);
    FlipFlip(j, t);
    FlipFlip(k, t);
  }

  lemma StepKeepsAll(g: Rebuild, m: map<nat, Complex>, done: set<nat>, out: map<nat, Complex>, k: nat)
    requires k in m && k !in done
    requires forall j :: (j in out <==> Hit(g, m, done, j)) && SparseAt(out, j) == ValueAt(g, m, done, j)
    ensures var next := Step(g, out, k, m[k]);
            forall j :: (j in next <==> Hit(g, m, done + {k}, j)) && SparseAt(next, j) == ValueAt(g, m, done + {k}, j)
  {
    forall j: nat
      ensures var next := Step(g, out, k, m[k]);
              (j in next <==> Hit(g, m, done + {k}, j)) && SparseAt(next, j) == ValueAt(g, m, done + {k}, j)
    {
      StepKeeps(g, m, done, out, k, j);
    }
  }

  /** The loop's result, described index by index, is the map Rebuilt. */
  lemma RebuiltExt(g: Rebuild, m: map<nat, Complex>, out: map<nat, Complex>)
    requires forall j :: (j in out <==> Hit(g, m, m.Keys, j)) && SparseAt(out, j) == ValueAt(g, m, m.Keys, j)
    ensures out == Rebuilt(g, m)
  {
    var r := Rebuilt(g, m);
    var t := Axis(g);
    forall j: nat | j in out
      ensures j in r
    {
      if j !in m {
        FlipFlip(j, t);
        assert Flip(j, t) in m.Keys && Flip(Flip(j, t), t) == j;
      }
    }
    forall j: nat | j in out
      ensures out[j] == r[j]
    {
      assert SparseAt(out, j) == out[j];
    }
  }

  /** The entries of Rebuilt, index by index. */
  lemma RebuiltAt(g: Rebuild, m: map<nat, Complex>, j: nat)
    ensures j in Rebuilt(g, m) <==> Hit(g, m, m.Keys, j)
    ensures SparseAt(Rebuilt(g, m), j) == ValueAt(g, m, m.Keys, j)
  {
    var t := Axis(g);
    if Hit(g, m, m.Keys, j) && j !in m {
      FlipFlip(j, t);
      assert Flip(j, t) in m.Keys && Flip(Flip(j, t), t) == j;
    }
  }

  /** The rebuilding loop: visit every entry once, in whatever order the hash
      map yields them, accumulating into a fresh map. */
  method RebuildMap(m: map<nat, Complex>, g: Rebuild) returns (out: map<nat, Complex>)
    ensures out == Rebuilt(g, m)
  {
    out := map[];
    var keys := m.Keys;
    ghost var done: set<nat> := {};
    while keys != {}
      invariant keys + done == m.Keys && keys !! done
      invariant forall j :: (j in out <==> Hit(g, m, done, j)) && SparseAt(out, j) == ValueAt(g, m, done, j)
      decreases |keys|
    {
      var k :| k in keys;
      StepKeepsAll(g, m, done, out, k);
      out := Step(g, out, k, m[k]);
      done := done + {k};
      keys := keys - {k};
    }
    RebuiltExt(g, m, out);
  }

  // ---------------------------------------------------------------------------
  // What each rebuilding gate computes

  /** `apply_x` moves every entry to key `k ^ 2^q`, value unchanged. */
  lemma XRebuilt(m: map<nat, Complex>, q: nat, j: nat)
    ensures j in Rebuilt(XMove(q), m) <==> Flip(j, q) in m
    ensures SparseAt(Rebuilt(XMove(q), m), j) == SparseAt(m, Flip(j, q))
  {
    RebuiltAt(XMove(q), m, j);
    FlipFlip(j, q);
    FlipBit(j, q, q);
  }

  /** `apply_y` moves every entry to its partner key, times -i from a set bit
      and times i from a clear bit, as the dense Y matrix does. */
  lemma YRebuilt(m: map<nat, Complex>, q: nat, j: nat)
    ensures j in Rebuilt(YMove(q), m) <==> Flip(j, q) in m
    ensures SparseAt(Rebuilt(YMove(q), m), j) ==
            if Bit(j, q) then Mul(I, SparseAt(m, Flip(j, q))) else Mul(MinusI, SparseAt(m, Flip(j, q)))
  {
    RebuiltAt(YMove(q), m, j);
    FlipFlip(j, q);
    FlipBit(j, q, q);
  }

  /** `apply_h` writes to both members of every pair that has an entry; the
      new values are the Hadamard rows, and entries that cancel stay as zeros. */
  lemma HRebuilt(m: map<nat, Complex>, q: nat, f: real, j: nat)
    ensures j in Rebuilt(HMove(q, f), m) <==> j in m || Flip(j, q) in m
    ensures SparseAt(Rebuilt(HMove(q, f), m), j) ==
            if Bit(j, q) then Add(Scale(f, SparseAt(m, Flip(j, q))), Scale(-f, SparseAt(m, j)))
            else Add(Scale(f, SparseAt(m, j)), Scale(f, SparseAt(m, Flip(j, q))))
  {
    var g := HMove(q, f);
    RebuiltAt(g, m, j);
    FlipFlip(j, q);
    FlipBit(j, q, q);
    assert Reaches(g, j, j) && Reaches(g, Flip(j, q), j);
    HGiftFromPartner(m, q, f, j);
    HGiftFromSelf(m, q, f, j);
    AddComm(Scale(-f, SparseAt(m, j)), Scale(f, SparseAt(m, Flip(j, q))));
  }

  lemma HGiftFromPartner(m: map<nat, Complex>, q: nat, f: real, j: nat)
    ensures Gift(HMove(q, f), m, m.Keys, Flip(j, q), j) == Scale(f, SparseAt(m, Flip(j, q)))
  {
    FlipFlip(j, q);
    FlipBit(j, q, q);
    ScaleZero(f);
  }

  lemma HGiftFromSelf(m: map<nat, Complex>, q: nat, f: real, j: nat)
    ensures Gift(HMove(q, f), m, m.Keys, j, j) == Scale(if Bit(j, q) then -f else f, SparseAt(m, j))
  {
    ScaleZero(f);
    ScaleZero(-f);
  }

  /** `apply_cnot` with control != target moves the entries with the control
      bit set to key `k ^ 2^t` and keeps the others. */
  lemma CnotRebuilt(m: map<nat, Complex>, c: nat, t: nat, j: nat)
    requires c != t
    ensures j in Rebuilt(CnotMove(c, t), m) <==> (if Bit(j, c) then Flip(j, t) else j) in m
    ensures SparseAt(Rebuilt(CnotMove(c, t), m), j) == SparseAt(m, if Bit(j, c) then Flip(j, t) else j)
  {
    RebuiltAt(CnotMove(c, t), m, j);
    FlipFlip(j, t);
    FlipBit(j, t, t);
    FlipBitOfOther(j, t, c);
  }

  /** With control == target the sparse CNOT is not a no-op: the entry with the
      bit set is merged into its partner with the bit clear. */
  lemma CnotSameQubitMerges(m: map<nat, Complex>, t: nat, j: nat)
    ensures j in Rebuilt(CnotMove(t, t), m) <==> !Bit(j, t) && (j in m || Flip(j, t) in m)
    ensures SparseAt(Rebuilt(CnotMove(t, t), m), j) ==
            if Bit(j, t) then Zero else Add(SparseAt(m, j), SparseAt(m, Flip(j, t)))
  {
    RebuiltAt(CnotMove(t, t), m, j);
    FlipFlip(j, t);
    FlipBit(j, t, t);
  }

  /** A key set and its image under `^ 2^q` have the same size. */
  lemma {:induction false} FlipImageSize(s: set<nat>, q: nat)
    ensures |FlipImage(s, q)| == |s|
    decreases |s|
  {
    if s != {} {
      var x :| x in s;
      var rest := s - {x};
      FlipImageSize(rest, q);
      assert FlipImage(s, q) == FlipImage(rest, q) + {Flip(x, q)};
      if Flip(x, q) in FlipImage(rest, q) {
        var y :| y in rest && Flip(y, q) == Flip(x, q);
        FlipFlip(x, q);
        FlipFlip(y, q);
      }
    }
  }

  /** X keeps the number of entries (xor is a bijection, so no two keys collide)
      and applied twice gives the map back. */
  lemma XKeepsEntries(m: map<nat, Complex>, q: nat)
    ensures |Rebuilt(XMove(q), m)| == |m|
    ensures Rebuilt(XMove(q), Rebuilt(XMove(q), m)) == m
  {
    var r := Rebuilt(XMove(q), m);
    forall j: nat
      ensures j in r <==> j in FlipImage(m.Keys, q)
    {
      XRebuilt(m, q, j);
      FlipFlip(j, q);
      if j in FlipImage(m.Keys, q) {
        var k :| k in m.Keys && Flip(k, q) == j;
        FlipFlip(k, q);
      }
    }
    assert r.Keys == FlipImage(m.Keys, q);
    FlipImageSize(m.Keys, q);
    var rr := Rebuilt(XMove(q), r);
    forall j: nat
      ensures (j in rr <==> j in m) && SparseAt(rr, j) == SparseAt(m, j)
    {
      XRebuilt(r, q, j);
      XRebuilt(m, q, Flip(j, q));
      FlipFlip(j, q);
    }
    SparseExt(rr, m);
  }

  /** Two maps with the same keys and the same values at every index are equal. */
  lemma SparseExt(a: map<nat, Complex>, b: map<nat, Complex>)
    requires forall j :: (j in a <==> j in b) && SparseAt(a, j) == SparseAt(b, j)
    ensures a == b
  {
    forall j | j in a
      ensures a[j] == b[j]
    {
      assert SparseAt(a, j) == SparseAt(b, j);
    }
  }

  // ---------------------------------------------------------------------------
  // Phases and measurement

  /** `apply_z/s/t`: the values at keys with bit q set are multiplied by p. */
  function Phased(m: map<nat, Complex>, q: nat, p: Complex): (r: map<nat, Complex>)
    ensures r.Keys == m.Keys
  {
    map k | k in m :: if Bit(k, q) then Mul(m[k], p) else m[k]
  }

  /** `measure` with outcome `outcome`: the entries that disagree are erased,
      the others rescaled by `scale`, the reciprocal of `sqrt(p)`. */
  function Survivors(m: map<nat, Complex>, q: nat, outcome: bool, scale: real): map<nat, Complex> {
    map k | k in m && Bit(k, q) == outcome :: Scale(scale, m[k])
  }

  // ---------------------------------------------------------------------------
  // The class

  class SparseWavefunction {
    var state: map<nat, Complex>
    var numQubits: nat

    /** `SparseWavefunction(qubits)`: the single entry 0 -> 1. */
    constructor (qubits: nat)
      ensures state == map[0 := One] && numQubits == qubits
    {
      numQubits := qubits;
      state := map[0 := One];
    }

    /** `reset`: back to the single entry 0 -> 1. */
    method Reset()
      modifies this
      ensures state == map[0 := One] && numQubits == old(numQubits)
    {
      state := map[];
      state := state[0 := One];
    }

    /** `amplitude(index)`: the stored value, zero for an absent key. */
    function Amplitude(index: nat): (a: Complex)
      reads this
      ensures index in state ==> a == state[index]
      ensures index !in state ==> a == Zero
    {
      SparseAt(state, index)
    }

    method ApplyX(q: nat)
      modifies this
      ensures state == Rebuilt(XMove(q), old(state)) && numQubits == old(numQubits)
    {
      state := RebuildMap(state, XMove(q));
    }

    method ApplyY(q: nat)
      modifies this
      ensures state == Rebuilt(YMove(q), old(state)) && numQubits == old(numQubits)
    {
      state := RebuildMap(state, YMove(q));
    }

    /** `apply_h`, with `f` the value of `1.0 / std::sqrt(2.0)`. */
    method ApplyH(q: nat, f: real)
      modifies this
      ensures state == Rebuilt(HMove(q, f), old(state)) && numQubits == old(numQubits)
    {
      state := RebuildMap(state, HMove(q, f));
    }

    method ApplyCnot(control: nat, target: nat)
      modifies this
      ensures state == Rebuilt(CnotMove(control, target), old(state)) && numQubits == old(numQubits)
    {
      state := RebuildMap(state, CnotMove(control, target));
    }

    /** The in-place loop of `apply_z/s/t`: multiply the value of every entry
        whose key has bit q set by p. */
    method MultiplySetBit(q: nat, p: Complex)
      modifies this
      ensures state == Phased(old(state), q, p) && numQubits == old(numQubits)
    {
      ghost var m0 := state;
      var keys := state.Keys;
      while keys != {}
        invariant keys <= m0.Keys && state.Keys == m0.Keys && numQubits == old(numQubits)
        invariant forall k :: k in state ==> state[k] == if k !in keys && Bit(k, q) then Mul(m0[k], p) else m0[k]
        decreases |keys|
      {
        var k :| k in keys;
        if Bit(k, q) {
          state := state[k := Mul(state[k], p)];
        }
        keys := keys - {k};
      }
    }

    /** `apply_z`: `kv.second = -kv.second`, that is, times -1. */
    method ApplyZ(q: nat)
      modifies this
      ensures state == Phased(old(state), q, MinusOne) && numQubits == old(numQubits)
    {
      MultiplySetBit(q, MinusOne);
    }

    /** `apply_s`: times i. */
    method ApplyS(q: nat)
      modifies this
      ensures state == Phased(old(state), q, I) && numQubits == old(numQubits)
    {
      MultiplySetBit(q, I);
    }

    /** `apply_t`: times e^{i pi/4}, given as the constant's `tPhase`. */
    method ApplyT(q: nat, k: Constants)
      modifies this
      ensures state == Phased(old(state), q, k.tPhase) && numQubits == old(numQubits)
    {
      MultiplySetBit(q, k.tPhase);
    }

    /** `measure(qubit)` once `outcome` has been drawn: erase the entries that
        disagree with it, rescale the others. */
    method Measure(q: nat, outcome: bool, scale: real) returns (r: int)
      modifies this
      ensures r == if outcome then 1 else 0
      ensures state == Survivors(old(state), q, outcome, scale) && numQubits == old(numQubits)
    {
      ghost var m0 := state;
      var keys := state.Keys;
      while keys != {}
        invariant keys <= m0.Keys && numQubits == old(numQubits)
        invariant forall k :: k in state <==> k in m0 && (k in keys || Bit(k, q) == outcome)
        invariant forall k :: k in state ==> state[k] == if k in keys then m0[k] else Scale(scale, m0[k])
        decreases |keys|
      {
        var k :| k in keys;
        if Bit(k, q) != outcome {
          state := state - {k};
        } else {
          state := state[k := Scale(scale, state[k])];
        }
        keys := keys - {k};
      }
      r := if outcome then 1 else 0;
    }
  }

  // ---------------------------------------------------------------------------
  // Agreement with the dense state vector

  /** The sparse map stores the dense vector s: same value at every index. */
  ghost predicate Represents(m: map<nat, Complex>, s: seq<Complex>) {
    forall j :: SparseAt(m, j) == DenseAt(s, j)
  }

  /** Outside a pairable vector both members of a pair are outside it. */
  lemma PartnerOutside(len: nat, t: nat, j: nat)
    requires Pairable(len, t) && j >= len
    ensures Flip(j, t) >= len
  {
    if Flip(j, t) < len {
      PartnerInRange(len, t, Flip(j, t));
      FlipFlip(j, t);
    }
  }

  lemma XAgrees(m: map<nat, Complex>, s: seq<Complex>, q: nat)
    requires Pairable(|s|, q) && Represents(m, s)
    ensures Represents(Rebuilt(XMove(q), m), Kernel(s, q, XMat()))
  {
    forall j: nat
      ensures SparseAt(Rebuilt(XMove(q), m), j) == DenseAt(Kernel(s, q, XMat()), j)
    {
      XRebuilt(m, q, j);
      if j < |s| {
        XMovesAmplitudes(s, q, j);
      } else {
        PartnerOutside(|s|, q, j);
      }
    }
  }

  /** The dense Y kernel at one index. */
  lemma YKernelAt(s: seq<Complex>, q: nat, j: nat)
    requires Pairable(|s|, q) && j < |s|
    ensures Flip(j, q) < |s|
    ensures Kernel(s, q, YMat())[j] == if Bit(j, q) then Mul(I, s[Flip(j, q)]) else Mul(MinusI, s[Flip(j, q)])
  {
    PartnerInRange(|s|, q, j);
    assert Kernel(s, q, YMat())[j] == KernelAt(s, q, YMat(), j);
    MulZeroLeft(s[j]);
    AddZeroLeft(Mul(MinusI, s[Flip(j, q)]));
    AddZeroLeft(Mul(I, s[Flip(j, q)]));
  }

  /** The value the sparse Y rebuilds at j, from the partner's amplitude b,
      is the dense kernel's value at j. */
  lemma YAgreesAt(s: seq<Complex>, q: nat, j: nat, b: Complex)
    requires Pairable(|s|, q) && b == DenseAt(s, Flip(j, q))
    ensures (if Bit(j, q) then Mul(I, b) else Mul(MinusI, b)) == DenseAt(Kernel(s, q, YMat()), j)
  {
    if j < |s| {
      YKernelAt(s, q, j);
    } else {
      PartnerOutside(|s|, q, j);
    }
  }

  lemma YAgrees(m: map<nat, Complex>, s: seq<Complex>, q: nat)
    requires Pairable(|s|, q) && Represents(m, s)
    ensures Represents(Rebuilt(YMove(q), m), Kernel(s, q, YMat()))
  {
    forall j: nat
      ensures SparseAt(Rebuilt(YMove(q), m), j) == DenseAt(Kernel(s, q, YMat()), j)
    {
      YRebuilt(m, q, j);
      YAgreesAt(s, q, j, SparseAt(m, Flip(j, q)));
    }
  }

  /** The dense Hadamard kernel at one index. */
  lemma HKernelAt(s: seq<Complex>, q: nat, k: Constants, j: nat)
    requires Pairable(|s|, q) && j < |s|
    ensures Flip(j, q) < |s|
    ensures var f := k.invSqrt2;
            Kernel(s, q, HMat(k))[j] ==
            if Bit(j, q) then Add(Scale(f, s[Flip(j, q)]), Scale(-f, s[j]))
            else Add(Scale(f, s[j]), Scale(f, s[Flip(j, q)]))
  {
    PartnerInRange(|s|, q, j);
    var f := k.invSqrt2;
    var a := s[j];
    var b := s[Flip(j, q)];
    assert Kernel(s, q, HMat(k))[j] == KernelAt(s, q, HMat(k), j);
    if Bit(j, q) {
      assert KernelAt(s, q, HMat(k), j) == Row(Complex(f, 0.0), Neg(Complex(f, 0.0)), b, a);
      MulRealLeft(f, a);
      MulRealLeft(f, b);
    } else {
      assert KernelAt(s, q, HMat(k), j) == Row(Complex(f, 0.0), Complex(f, 0.0), a, b);
      MulRealLeft(f, a);
      MulRealLeft(f, b);
    }
  }

  /** The value the sparse H rebuilds at j, from the amplitudes a at j and b
      at its partner, is the dense kernel's value at j. */
  lemma HAgreesAt(s: seq<Complex>, q: nat, k: Constants, j: nat, a: Complex, b: Complex)
    requires Pairable(|s|, q) && a == DenseAt(s, j) && b == DenseAt(s, Flip(j, q))
    ensures var f := k.invSqrt2;
            (if Bit(j, q) then Add(Scale(f, b), Scale(-f, a)) else Add(Scale(f, a), Scale(f, b)))
            == DenseAt(Kernel(s, q, HMat(k)), j)
  {
    if j < |s| {
      HKernelAt(s, q, k, j);
    } else {
      PartnerOutside(|s|, q, j);
      HOfZeros(k.invSqrt2, Bit(j, q));
    }
  }

  lemma HOfZeros(f: real, b: bool)
    ensures (if b then Add(Scale(f, Zero), Scale(-f, Zero)) else Add(Scale(f, Zero), Scale(f, Zero))) == Zero
  {
    ScaleZero(f);
    ScaleZero(-f);
  }

  /** The sparse H agrees with the dense kernel's Hadamard matrix. */
  lemma HAgrees(m: map<nat, Complex>, s: seq<Complex>, q: nat, k: Constants)
    requires Pairable(|s|, q) && Represents(m, s)
    ensures Represents(Rebuilt(HMove(q, k.invSqrt2), m), Kernel(s, q, HMat(k)))
  {
    forall j: nat
      ensures SparseAt(Rebuilt(HMove(q, k.invSqrt2), m), j) == DenseAt(Kernel(s, q, HMat(k)), j)
    {
      HRebuilt(m, q, k.invSqrt2, j);
      HAgreesAt(s, q, k, j, SparseAt(m, j), SparseAt(m, Flip(j, q)));
    }
  }

  /** The sparse CNOT agrees with the dense one when control != target. */
  lemma CnotAgrees(m: map<nat, Complex>, s: seq<Complex>, c: nat, t: nat)
    requires c != t && InBounds(CnotPairs(c, t), |s|) && Represents(m, s)
    ensures Represents(Rebuilt(CnotMove(c, t), m), Permuted(s, CnotPairs(c, t)))
  {
    forall j: nat
      ensures SparseAt(Rebuilt(CnotMove(c, t), m), j) == DenseAt(Permuted(s, CnotPairs(c, t)), j)
    {
      CnotRebuilt(m, c, t, j);
      if j >= |s| && Bit(j, c) && Flip(j, t) < |s| {
        FlipBitOfOther(j, t, c);
        FlipFlip(j, t);
        assert Active(CnotPairs(c, t), Flip(j, t));
      }
    }
  }

  /** Z, S and T agree with the dense kernel's diagonal matrices. */
  lemma PhaseAgrees(m: map<nat, Complex>, s: seq<Complex>, q: nat, k: Constants)
    requires Pairable(|s|, q) && Represents(m, s)
    ensures Represents(Phased(m, q, MinusOne), Kernel(s, q, ZMat()))
    ensures Represents(Phased(m, q, I), Kernel(s, q, SMat()))
    ensures Represents(Phased(m, q, k.tPhase), Kernel(s, q, TMat(k)))
  {
    PhaseAgreesWith(m, s, q, MinusOne);
    PhaseAgreesWith(m, s, q, I);
    PhaseAgreesWith(m, s, q, k.tPhase);
  }

  /** A diagonal kernel diag(1, p) at one index. */
  lemma PhaseKernelAt(s: seq<Complex>, q: nat, p: Complex, j: nat)
    requires Pairable(|s|, q) && j < |s|
    ensures Kernel(s, q, Mat2(One, Zero, Zero, p))[j] == if Bit(j, q) then Mul(s[j], p) else s[j]
  {
    PartnerInRange(|s|, q, j);
    assert Kernel(s, q, Mat2(One, Zero, Zero, p))[j] == KernelAt(s, q, Mat2(One, Zero, Zero, p), j);
    MulOneLeft(s[j]);
    MulZeroLeft(s[j]);
    MulZeroLeft(s[Flip(j, q)]);
    MulComm(s[j], p);
    AddZeroLeft(s[j]);
    AddZeroLeft(Mul(p, s[j]));
  }

  lemma PhaseAgreesWith(m: map<nat, Complex>, s: seq<Complex>, q: nat, p: Complex)
    requires Pairable(|s|, q) && Represents(m, s)
    ensures Represents(Phased(m, q, p), Kernel(s, q, Mat2(One, Zero, Zero, p)))
  {
    forall j: nat
      ensures SparseAt(Phased(m, q, p), j) == DenseAt(Kernel(s, q, Mat2(One, Zero, Zero, p)), j)
    {
      assert SparseAt(m, j) == DenseAt(s, j);
      if j < |s| {
        PhaseKernelAt(s, q, p, j);
      }
    }
  }

  /** Sparse and dense measurement agree on every amplitude; the sparse one
      erases what the dense one sets to zero. */
  lemma MeasureAgrees(m: map<nat, Complex>, s: seq<Complex>, q: nat, outcome: bool, scale: real)
    requires Represents(m, s)
    ensures Represents(Survivors(m, q, outcome, scale), Collapse(s, q, outcome, scale))
    ensures forall k :: k in Survivors(m, q, outcome, scale) ==> Bit(k, q) == outcome
  {
    forall j: nat
      ensures SparseAt(Survivors(m, q, outcome, scale), j) == DenseAt(Collapse(s, q, outcome, scale), j)
    {
      assert SparseAt(m, j) == DenseAt(s, j);
    }
  }

  /** The two-qubit check in tests/sparse_wavefunction_test.cpp: from |00>,
      H on qubit 0 then CNOT(0, 1) gives the same amplitudes in both forms. */
  lemma BellStateAgrees(k: Constants)
    ensures var h := Kernel(Basis0(4), 0, HMat(k));
            |h| == 4 && InBounds(CnotPairs(0, 1), |h|) &&
            var s := Permuted(h, CnotPairs(0, 1));
            var m := Rebuilt(CnotMove(0, 1), Rebuilt(HMove(0, k.invSqrt2), map[0 := One]));
            Represents(m, s)
  {
    assert Pow2(2) == 4;
    PairableFull(2, 0);
    CnotBounds(2, 0, 1);
    var s0 := Basis0(4);
    assert Represents(map[0 := One], s0);
    HAgrees(map[0 := One], s0, 0, k);
    CnotAgrees(Rebuilt(HMove(0, k.invSqrt2), map[0 := One]), Kernel(s0, 0, HMat(k)), 0, 1);
  }
}

// The register pool: quantum registers each holding one dense state vector,
// classical registers of bits, and a manager that hands out their ids.

module Memory {
  import opened ComplexNumbers
  import opened Bits
  import opened Wrappers
  import opened GateKernels
  import opened PairSwaps
  import opened DenseWavefunction

  /** `QRegister`: a register is one `Wavefunction`, and every operation on it
      forwards to the state. The disk limit and the element size are those the
      state's constructor reads from the runtime configuration. */
  class QRegister {
    var wf: Wavefunction

    ghost predicate Valid()
      reads this, wf
    {
      wf.Valid()
    }

    /** The amplitudes held by the register. */
    ghost function State(): seq<Complex>
      reads this, wf, wf.state
    {
      wf.state[..]
    }

    /** `QRegister(n)`: the |0...0> state of n qubits, or an empty vector on
        the disk path. */
    constructor (n: nat, diskLimitMb: nat, elemBytes: nat)
      ensures Valid() && fresh(wf) && fresh(wf.state) && wf.numQubits == n
      ensures wf.diskBacked == DiskPath(n, diskLimitMb, elemBytes)
      ensures wf.diskBacked ==> State() == []
      ensures !wf.diskBacked ==> State() == Basis0(Pow2(n))
    {
      wf := new Wavefunction(n, diskLimitMb, elemBytes);
    }

    method H(q: nat, k: Constants)
      requires Valid() && (wf.state.Length == 0 || q < wf.numQubits)
      modifies wf.state
      ensures Valid() && Pairable(|old(State())|, q)
      ensures State() == Kernel(old(State()), q, HMat(k))
    {
      wf.ApplyH(q, k);
    }

    method X(q: nat)
      requires Valid() && (wf.state.Length == 0 || q < wf.numQubits)
      modifies wf.state
      ensures Valid() && Pairable(|old(State())|, q)
      ensures State() == Kernel(old(State()), q, XMat())
    {
      wf.ApplyX(q);
    }

    method Y(q: nat)
      requires Valid() && (wf.state.Length == 0 || q < wf.numQubits)
      modifies wf.state
      ensures Valid() && Pairable(|old(State())|, q)
      ensures State() == Kernel(old(State()), q, YMat())
    {
      wf.ApplyY(q);
    }

    method Z(q: nat)
      requires Valid() && (wf.state.Length == 0 || q < wf.numQubits)
      modifies wf.state
      ensures Valid() && Pairable(|old(State())|, q)
      ensures State() == Kernel(old(State()), q, ZMat())
    {
      wf.ApplyZ(q);
    }

    method Cnot(c: nat, t: nat)
      requires Valid() && (wf.state.Length == 0 || c >= wf.numQubits || t < wf.numQubits)
      modifies wf.state
      ensures Valid() && InBounds(CnotPairs(c, t), |old(State())|)
      ensures State() == Permuted(old(State()), CnotPairs(c, t))
    {
      wf.ApplyCnot(c, t);
    }

    /** `measure(q)` once the outcome has been drawn. */
    method Measure(q: nat, outcome: bool, scale: real) returns (r: int)
      requires Valid()
      modifies wf.state
      ensures Valid()
      ensures r == if outcome then 1 else 0
      ensures State() == Collapse(old(State()), q, outcome, scale)
    {
      r := wf.Measure(q, outcome, scale);
    }

    /** `resize(n)`: the old state is dropped for a new `Wavefunction(n)`. */
    method Resize(n: nat, diskLimitMb: nat, elemBytes: nat)
      modifies this
      ensures Valid() && fresh(wf) && fresh(wf.state) && wf.numQubits == n
      ensures wf.diskBacked == DiskPath(n, diskLimitMb, elemBytes)
      ensures wf.diskBacked ==> State() == []
      ensures !wf.diskBacked ==> State() == Basis0(Pow2(n))
    {
      wf := new Wavefunction(n, diskLimitMb, elemBytes);
    }
  }

  /** `CRegister(n)`: n classical bits, all 0. */
  class CRegister {
    var bits: seq<int>

    constructor (n: nat)
      ensures |bits| == n && forall i :: 0 <= i < n ==> bits[i] == 0
    {
      bits := seq(n, _ => 0);
    }
  }

  /** `MemoryManager`: two append-only pools; a register's id is its position. */
  class MemoryManager {
    var qregs: seq<QRegister>
    var cregs: seq<CRegister>

    constructor ()
      ensures qregs == [] && cregs == []
    {
      qregs, cregs := [], [];
    }

    /** `create_qregister(n)`: append a new register and return the old pool
        size, so ids come out 0, 1, 2, ... The registers already in the pool,
        and their states, are left as they were. */
    method CreateQRegister(n: nat, diskLimitMb: nat, elemBytes: nat) returns (id: int)
      modifies this
      ensures id == |old(qregs)| && |qregs| == id + 1
      ensures qregs[..id] == old(qregs) && cregs == old(cregs)
      ensures fresh(qregs[id]) && fresh(qregs[id].wf) && fresh(qregs[id].wf.state)
      ensures qregs[id].Valid() && qregs[id].wf.numQubits == n
      ensures qregs[id].wf.diskBacked == DiskPath(n, diskLimitMb, elemBytes)
      ensures !qregs[id].wf.diskBacked ==> qregs[id].State() == Basis0(Pow2(n))
    {
      var r := new QRegister(n, diskLimitMb, elemBytes);
      qregs := qregs + [r];
      id := |qregs| - 1;
      assert qregs[..id] == old(qregs);
    }

    /** `create_cregister(n)`: the same for the classical pool; the new
        register holds n zero bits. */
    method CreateCRegister(n: nat) returns (id: int)
      modifies this
      ensures id == |old(cregs)| && |cregs| == id + 1
      ensures cregs[..id] == old(cregs) && qregs == old(qregs)
      ensures fresh(cregs[id])
      ensures |cregs[id].bits| == n && forall i :: 0 <= i < n ==> cregs[id].bits[i] == 0
    {
      var r := new CRegister(n);
      cregs := cregs + [r];
      id := |cregs| - 1;
      assert cregs[..id] == old(cregs);
    }

    /** `qreg(id)`: `qregs.at(id)`; None where `at` throws, that is for a
        negative id (which converts to a huge index) or one past the end. */
    method QReg(id: int) returns (r: Option<QRegister>)
      ensures r.Some? <==> 0 <= id < |qregs|
      ensures r.Some? ==> r.value == qregs[id]
    {
      if 0 <= id < |qregs| {
        r := Some(qregs[id]);
      } else {
        r := None;
      }
    }

    /** `creg(id)`: `cregs.at(id)`, None where it throws. */
    method CReg(id: int) returns (r: Option<CRegister>)
      ensures r.Some? <==> 0 <= id < |cregs|
      ensures r.Some? ==> r.value == cregs[id]
    {
      if 0 <= id < |cregs| {
        r := Some(cregs[id]);
      } else {
        r := None;
      }
    }
  }

  /** Ids are handed out in sequence: after two creations on a pool of size m,
      the ids are m and m + 1 and both lookups succeed. */
  method ExampleIds(mm: MemoryManager, n: nat, diskLimitMb: nat) returns (a: int, b: int)
    modifies mm
    ensures a == |old(mm.qregs)| && b == a + 1
  {
    a := mm.CreateQRegister(n, diskLimitMb, 16);
    b := mm.CreateQRegister(n, diskLimitMb, 16);
    var ra := mm.QReg(a);
    var rb := mm.QReg(b);
    assert ra.Some? && rb.Some? && ra.value != rb.value;
  }
}

# qpp-lang runtime core, modelled in Dafny

This project models the runtime of qpp-lang, a C++ quantum programming
runtime, and proves properties of the model. It covers:

- **the dense state vector** (`Wavefunction`). This includes its bit-mask gate
  kernels, fused single-qubit gates, single and joint measurement collapse,
  reset, amplitude lookup, and conversion between the dense and sparse forms.
- **the sparse state** (`SparseWavefunction`), a map from basis index to
  amplitude.
- **the quantum decision diagram** (`QuIDD`). This covers its hash-consed node
  arena, the recursive bisection build, and the `fill`/`to_vector` expansion.
- **the separability partitioner**:
  - its union-find;
  - the assignment of qubits to separable regions and the ordering of those
    regions;
  - the replay of a program region by region, and the recombination of the
    regions by tensor products.
- **the peephole rewriter**, which folds QFT2 and GROVER2 windows of an
  instruction list.
- **the one-page write-back disk pager**.
- **the synchronous task scheduler**.
- **the register pool**.
- **the memory tracker**.

Amplitudes are exact complex numbers over `real`
(`ComplexNumbers.Complex`). The irrational constants are parameters:
`GateKernels.Constants` holds 1/√2 and e^{iπ/4}, and the renormalisation
factor of a measurement is a `scale` argument. A measurement outcome is an
argument too, in place of the random draw. The "negligible amplitude"
threshold of `compress` and `nnz` is one predicate, `ComplexNumbers.Negligible`.
A qubit's index bit, `i & (1 << q)`, is `Bits.Bit(i, q)`. Flipping it
(`i ^ (1 << q)`) is `Bits.Flip(i, q)`.

Each stateful source entity is a class whose fields are those of the source:

- `Wavefunction` keeps its state vector in an `array` that the gate kernels
  update in place.
- `DiskPager` keeps its page buffer in an `array`. The backing file is a `seq`.
- `QuIDD` keeps its node arena as a `seq` of nodes. A node pointer is modelled
  as the node's index in the arena.
- `DSU`, `Scheduler`, `QRegister`, `MemoryManager`, `MemoryTracker` and
  `SparseWavefunction` are classes too.

A method is specified in one of two ways. Some methods are tied to a pure
function of the old state; the properties the runtime relies on are then
proved about that function as lemmas. Other methods state the property
outright. Examples of these properties:

- X, CNOT, CCNOT, SWAP and CZ are self-inverse.
- Fusing gates equals applying them one by one.
- A read from the pager returns the last write.
- Partitions are exactly the connected components of the coupling graph, in
  registration order.
- Rewriting patterns is idempotent.
- Tasks run in descending priority order.

## Model

| member | source | states |
|---|---|---|
| `GateKernels.GateMatrix` | runtime/wavefunction.cpp:228-237 | any name other than H, X, Y, Z, S, T gives the identity matrix |
| `GateKernels.ApplySingleQubitGateCpu` | runtime/wavefunction.cpp:34-48 | the vector after the in-place block loop is the reference kernel of the old vector: for each i with bit t clear, `new[i] = m00·a + m01·b` and `new[i+2^t] = m10·a + m11·b`; the precondition is exactly the one that keeps the loop in bounds |
| `GateKernels.ApplyBlock` | runtime/wavefunction.cpp:41-46 | the inner loop over one block of width 2·2^t rewrites exactly the pairs of that block |
| `GateKernels.PairableFullIff` | runtime/wavefunction.cpp:34-48 | on a full register of n qubits the kernel stays in bounds exactly when t < n |
| `GateKernels.KernelAtLow` | runtime/wavefunction.cpp:44 | an index with bit t clear receives `m00·old[i] + m01·old[i+2^t]` |
| `GateKernels.KernelAtHigh` | runtime/wavefunction.cpp:45 | an index with bit t set receives `m10·old[i-2^t] + m11·old[i]` |
| `GateKernels.KernelCompose` | runtime/wavefunction.cpp:209-217 | applying matrix a and then b equals applying the single matrix `mat_mul(b, a)` |
| `GateKernels.KernelIdentity` | runtime/wavefunction.cpp:220-225 | the identity matrix changes nothing |
| `GateKernels.FusedIsSequential` | runtime/wavefunction.cpp:240-261 | the fused matrix G_k·…·G_1 acts exactly as the gates applied one by one in list order |
| `GateKernels.SquaredPaulis` | runtime/wavefunction.cpp:228-237 | X·X, Y·Y and Z·Z are the identity and S·S is Z |
| `GateKernels.SquaredHadamard` | runtime/wavefunction.cpp:229-230 | H·H is the identity when 2·f² = 1 |
| `GateKernels.KernelInverse` | runtime/wavefunction.cpp:209-217 | a matrix followed by its inverse restores the vector |
| `GateKernels.PauliInvolutions` | runtime/wavefunction.cpp:68-110 | X, Y and Z applied twice restore the vector |
| `GateKernels.HadamardInvolution` | runtime/wavefunction.cpp:53-65 | H applied twice restores the vector |
| `GateKernels.PhaseOrderFour` | runtime/wavefunction.cpp:113-127 | S twice is Z and S four times is the identity |
| `GateKernels.XMovesAmplitudes` | runtime/wavefunction.cpp:68-79 | after X, index i holds the old amplitude of `i xor 2^t` |
| `PairSwaps.PairFacts` | runtime/wavefunction.cpp:264-330 | on the indices a CNOT, CCNOT or SWAP moves, the partner relation is an involution without fixed points |
| `PairSwaps.PermutedInvolution` | runtime/wavefunction.cpp:264-330 | CNOT, CCNOT and SWAP are each self-inverse |
| `PairSwaps.VisitsLower` | runtime/wavefunction.cpp:270-274 | the loop's test (for SWAP the two bits differ and i < j; for CNOT and CCNOT the controls are set and the target is clear) holds exactly at the lower member of each moved pair |
| `PairSwaps.PermuteInPlace` | runtime/wavefunction.cpp:269-276 | the in-place swap loop leaves each moved index holding its partner's old amplitude and every other index unchanged |
| `PairSwaps.Exchange` | runtime/wavefunction.cpp:275 | `std::swap` exchanges two entries and nothing else |
| `PairSwaps.CnotBounds` | runtime/wavefunction.cpp:280-304 | on n qubits CNOT stays in bounds exactly when the control is at or above n, or the target is below n |
| `PairSwaps.CcnotBounds` | runtime/wavefunction.cpp:319-330 | on n qubits CCNOT stays in bounds exactly when a control is at or above n, or the target is below n |
| `PairSwaps.SwapBounds` | runtime/wavefunction.cpp:264-277 | on n qubits SWAP stays in bounds exactly when q1 == q2 or both lie on the same side of n |
| `PairSwaps.OutOfRangeSwap` | runtime/wavefunction.cpp:273 | a SWAP with one qubit inside the register and one outside sends the last index past the end |
| `PairSwaps.SwapBitsSymmetric` | runtime/wavefunction.cpp:264-277 | `swap(q1, q2)` and `swap(q2, q1)` are the same permutation |
| `DenseWavefunction.CompressMap` | runtime/wavefunction.cpp:484-487 | the map holds exactly the indices whose amplitude is not negligible, each with its amplitude |
| `DenseWavefunction.Wavefunction.constructor` | runtime/wavefunction.cpp:21-31 | the disk path is taken exactly when the limit is positive and `2^n·elem_bytes / 2^20 ≥ limit`; the state is then empty with a fresh pager; otherwise it is the basis state \|0…0⟩ of length 2^n |
| `DenseWavefunction.Wavefunction.ApplyH` | runtime/wavefunction.cpp:53-65 | the state becomes the kernel of the H matrix on qubit q |
| `DenseWavefunction.Wavefunction.ApplyX` | runtime/wavefunction.cpp:68-79 | the state becomes the kernel of the X matrix |
| `DenseWavefunction.Wavefunction.ApplyY` | runtime/wavefunction.cpp:82-96 | the state becomes the kernel of the Y matrix (−i above, +i below) |
| `DenseWavefunction.Wavefunction.ApplyZ` | runtime/wavefunction.cpp:99-110 | the state becomes the kernel of the Z matrix |
| `DenseWavefunction.Wavefunction.ApplyS` | runtime/wavefunction.cpp:113-127 | the state becomes the kernel of the S matrix |
| `DenseWavefunction.Wavefunction.ApplyT` | runtime/wavefunction.cpp:130-144 | the state becomes the kernel of the T matrix |
| `DenseWavefunction.Wavefunction.ApplyFused` | runtime/wavefunction.cpp:240-261 | an empty list leaves the state unchanged; otherwise the state is the kernel of the fused matrix, which equals the gates applied in order |
| `DenseWavefunction.Wavefunction.ApplySwap` | runtime/wavefunction.cpp:264-277 | index i receives the old amplitude of i with bits q1 and q2 exchanged |
| `DenseWavefunction.Wavefunction.ApplyCnot` | runtime/wavefunction.cpp:280-304 | an index with the control bit set receives the old amplitude of `i xor 2^t`, and every other index keeps its amplitude |
| `DenseWavefunction.Wavefunction.ApplyCz` | runtime/wavefunction.cpp:307-316 | exactly the indices with both bits set are negated |
| `DenseWavefunction.Wavefunction.ApplyCcnot` | runtime/wavefunction.cpp:319-330 | with both control bits set an index receives the partner amplitude; every other index is unchanged |
| `DenseWavefunction.Wavefunction.Measure` | runtime/wavefunction.cpp:334-353 | returns the outcome as 0 or 1; indices whose bit q differs from it become 0, and the others are divided by the scale |
| `DenseWavefunction.Wavefunction.MeasureJoint` | runtime/wavefunction.cpp:356-401 | an empty qubit list returns 0 and changes nothing; otherwise the state is decompressed and exactly the indices whose outcome is the result survive, rescaled |
| `DenseWavefunction.Wavefunction.Reset` | runtime/wavefunction.cpp:404-407 | the vector keeps its length and becomes 1 at index 0 and 0 elsewhere |
| `DenseWavefunction.Wavefunction.Amplitude` | runtime/wavefunction.cpp:410-418 | the stored amplitude; an absent key or an index past the end gives 0 |
| `DenseWavefunction.Wavefunction.Compress` | runtime/wavefunction.cpp:481-490 | a dense state becomes the map of its non-negligible amplitudes with an empty vector; a compressed state is left as it is |
| `DenseWavefunction.Wavefunction.Decompress` | runtime/wavefunction.cpp:493-501 | a compressed state becomes the dense vector of length 2^n expanded from the map; a dense state is left as it is |
| `DenseWavefunction.Wavefunction.Nnz` | runtime/wavefunction.cpp:504-510 | the key count when compressed, else the number of non-negligible amplitudes |
| `DenseWavefunction.RegisterPairable` | runtime/wavefunction.cpp:21-31 | on a vector of 0 or 2^n entries the kernel is in bounds exactly when the vector is empty or q < n |
| `DenseWavefunction.DiskPathMonotone` | runtime/wavefunction.cpp:24 | a register that takes the disk path would also take it with one qubit more |
| `DenseWavefunction.DiskPathNeedsLimit` | runtime/wavefunction.cpp:24 | a zero limit never takes the disk path |
| `DenseWavefunction.SameQubitsNoOp` | runtime/wavefunction.cpp:265 | SWAP(q, q) and CNOT(q, q) change nothing |
| `DenseWavefunction.CzInvolution` | runtime/wavefunction.cpp:307-316 | CZ is self-inverse and symmetric in its two qubits |
| `DenseWavefunction.OutcomeBits` | runtime/wavefunction.cpp:373-376 | bit j of an index's outcome is bit `qs[j]` of the index, and the outcome is below 2^\|qs\| |
| `DenseWavefunction.OutcomeIsResult` | runtime/wavefunction.cpp:388-398 | an index has outcome r exactly when r < 2^\|qs\| and every measured bit of the index agrees with r |
| `DenseWavefunction.JointCollapseSurvivors` | runtime/wavefunction.cpp:388-398 | after the joint collapse an index with a different outcome holds 0 and one with the same outcome holds its rescaled amplitude |
| `DenseWavefunction.SingleIsJoint` | runtime/wavefunction.cpp:356-401 | measuring one qubit is the joint measurement of the list [q] |
| `DenseWavefunction.CollapseIdempotent` | runtime/wavefunction.cpp:345-351 | collapsing again to the same outcome with scale 1 changes nothing |
| `DenseWavefunction.Basis0Count` | runtime/wavefunction.cpp:21-31 | the initial state has exactly one non-negligible amplitude |
| `DenseWavefunction.CompressKeepsCount` | runtime/wavefunction.cpp:481-490 | the compressed map has as many keys as the vector has non-negligible amplitudes, so `nnz` is the same before and after `compress` |
| `DenseWavefunction.DecompressKeepsCount` | runtime/wavefunction.cpp:493-501 | the vector expanded from a compressed map has as many non-negligible amplitudes as the map has keys, so `nnz` is the same before and after `decompress` |
| `DenseWavefunction.DecompressThenCompress` | runtime/wavefunction.cpp:481-501 | compressing the expansion of a compressed map gives the same map back |
| `DenseWavefunction.CompressThenDecompress` | runtime/wavefunction.cpp:481-501 | expanding the compressed form of a vector keeps every non-negligible entry and zeroes the rest |
| `DenseWavefunction.CompressAmplitude` | runtime/wavefunction.cpp:410-418 | after compression, `amplitude` returns the thresholded dense value at every index |
| `DenseWavefunction.DecompressAmplitude` | runtime/wavefunction.cpp:410-418 | after decompression, `amplitude` returns the value the map held at every index |
| `DenseWavefunction.AmplitudeOfDecompressed` | runtime/wavefunction.cpp:410-418 | `amplitude` on either form equals lookup in the decompressed vector |
| `SparseStates.RebuildMap` | runtime/sparse_wavefunction.cpp:24-32 | the loop that accumulates an `out` map over every entry builds exactly the reference rebuilt map |
| `SparseStates.XRebuilt` | runtime/sparse_wavefunction.cpp:24-32 | after X, key j is present exactly when `j xor 2^q` was, and it holds that value |
| `SparseStates.XKeepsEntries` | runtime/sparse_wavefunction.cpp:24-32 | X keeps the number of keys, and X applied twice restores the map |
| `SparseStates.YRebuilt` | runtime/sparse_wavefunction.cpp:59-75 | a key with bit q clear moves to bit set times i, and one with bit q set moves to bit clear times −i |
| `SparseStates.HRebuilt` | runtime/sparse_wavefunction.cpp:42-57 | after H the keys are exactly the input keys and their partners, keys that cancel are kept, and each value is the ±f-weighted sum |
| `SparseStates.CnotRebuilt` | runtime/sparse_wavefunction.cpp:97-108 | with control ≠ target, a key with the control bit set comes from `j xor 2^t` and every other key is kept |
| `SparseStates.CnotSameQubitMerges` | runtime/sparse_wavefunction.cpp:97-108 | with control == target the pair k, `k xor 2^t` merges into the key with the bit clear, unlike the dense no-op |
| `SparseStates.Phased` | runtime/sparse_wavefunction.cpp:34-40 | a phase gate keeps the key set |
| `SparseStates.SparseWavefunction.constructor` | runtime/sparse_wavefunction.cpp:8-11 | the map is exactly {0 ↦ 1} |
| `SparseStates.SparseWavefunction.Reset` | runtime/sparse_wavefunction.cpp:13-16 | the map is exactly {0 ↦ 1} again |
| `SparseStates.SparseWavefunction.Amplitude` | runtime/sparse_wavefunction.cpp:18-22 | the stored value, or 0 for an absent key |
| `SparseStates.SparseWavefunction.ApplyX` | runtime/sparse_wavefunction.cpp:24-32 | the map becomes the X rebuild of the old map |
| `SparseStates.SparseWavefunction.ApplyZ` | runtime/sparse_wavefunction.cpp:34-40 | the values at keys with bit q set are multiplied by −1 |
| `SparseStates.SparseWavefunction.ApplyH` | runtime/sparse_wavefunction.cpp:42-57 | the map becomes the H rebuild of the old map |
| `SparseStates.SparseWavefunction.ApplyY` | runtime/sparse_wavefunction.cpp:59-75 | the map becomes the Y rebuild of the old map |
| `SparseStates.SparseWavefunction.ApplyS` | runtime/sparse_wavefunction.cpp:77-85 | the values at keys with bit q set are multiplied by i |
| `SparseStates.SparseWavefunction.ApplyT` | runtime/sparse_wavefunction.cpp:87-95 | the values at keys with bit q set are multiplied by e^{iπ/4} |
| `SparseStates.SparseWavefunction.MultiplySetBit` | runtime/sparse_wavefunction.cpp:36-39 | the in-place loop multiplies exactly the values at keys with bit q set, and the key set is unchanged |
| `SparseStates.SparseWavefunction.ApplyCnot` | runtime/sparse_wavefunction.cpp:97-108 | the map becomes the CNOT rebuild of the old map |
| `SparseStates.SparseWavefunction.Measure` | runtime/sparse_wavefunction.cpp:110-128 | returns the outcome; the keys whose bit q differs from it are erased and the rest are rescaled |
| `SparseStates.XAgrees` | runtime/sparse_wavefunction.cpp:24-32 | on a map and a vector holding the same amplitudes, sparse X and dense X give the same amplitudes again |
| `SparseStates.YAgrees` | runtime/sparse_wavefunction.cpp:59-75 | sparse Y matches the dense Y matrix |
| `SparseStates.HAgrees` | runtime/sparse_wavefunction.cpp:42-57 | sparse H matches dense H |
| `SparseStates.CnotAgrees` | runtime/sparse_wavefunction.cpp:97-108 | sparse CNOT with control ≠ target matches dense CNOT |
| `SparseStates.PhaseAgrees` | runtime/sparse_wavefunction.cpp:77-95 | sparse Z, S and T match the dense Z, S and T matrices |
| `SparseStates.MeasureAgrees` | runtime/sparse_wavefunction.cpp:110-128 | the sparse collapse matches the dense collapse, and every surviving key has bit q equal to the outcome |
| `SparseStates.BellStateAgrees` | tests/sparse_wavefunction_test.cpp:12-21 | after H(0) and then CNOT(0,1), the sparse and dense amplitudes agree at every index below 4 |
| `DecisionDiagram.Find` | runtime/quidd.cpp:9-10 | a table lookup finds a node exactly when one with those contents is in the arena |
| `DecisionDiagram.InternKeeps` | runtime/quidd.cpp:7-35 | an existing node is returned as it is; otherwise exactly one node is appended; the arena stays free of duplicates and canonical |
| `DecisionDiagram.QuIDD.MakeTerminal` | runtime/quidd.cpp:7-20 | returns the existing terminal for a known value, otherwise appends one; `term_table` stays an exact index of the arena |
| `DecisionDiagram.QuIDD.MakeNode` | runtime/quidd.cpp:22-35 | the same for internal nodes and `unique_table` |
| `DecisionDiagram.AddTerminal` | runtime/quidd.cpp:17-18 | appending a new terminal and recording it in `term_table` keeps both tables exact |
| `DecisionDiagram.AddBranch` | runtime/quidd.cpp:32-33 | appending a new internal node and recording it in `unique_table` keeps both tables exact |
| `DecisionDiagram.BuildUnfold` | runtime/quidd.cpp:43-47 | a level above 0 builds the low half, then the high half, and returns the low node itself when the two coincide |
| `DecisionDiagram.QuIDD.Build` | runtime/quidd.cpp:37-48 | the recursive build returns the node that the reference build gives, and keeps the tables exact |
| `DecisionDiagram.BuildSound` | runtime/quidd.cpp:37-48 | the build keeps the arena canonical; the node it returns means exactly the slice it was built from; each call adds at most 2·2^lv − 1 nodes |
| `DecisionDiagram.Log2` | runtime/quidd.cpp:51-53 | for a power-of-two size, the qubit count the constructor computes satisfies 2^q = size |
| `DecisionDiagram.ConstructionSound` | runtime/quidd.cpp:50-55 | for a power-of-two state: the arena is canonical (no duplicate terminals, no duplicate internal keys, no internal node with low == high), it has at most 2·size − 1 nodes, and the root means exactly the state |
| `DecisionDiagram.QuIDD.constructor` | runtime/quidd.cpp:50-55 | `qubits` is log2 of the size, the root means exactly the input, and `node_count() ≤ 2·size − 1` |
| `DecisionDiagram.Expanded` | runtime/quidd.h:10-16 | the meaning of a node on lv levels has length 2^lv; a level skipped by the reduction repeats its half |
| `DecisionDiagram.ExpandedExtends` | runtime/quidd.cpp:7-35 | appending nodes to the arena never changes what an existing node means |
| `DecisionDiagram.Filled` | runtime/quidd.cpp:57-67 | the vector `fill` writes over a range of length len has length len |
| `DecisionDiagram.QuIDD.Fill` | runtime/quidd.cpp:57-67 | the recursive fill writes the as-written expansion into [start, end) and leaves the rest of the output unchanged |
| `DecisionDiagram.QuIDD.ToVector` | runtime/quidd.cpp:69-73 | returns a fresh vector of length 2^qubits holding the as-written expansion of the root |
| `DecisionDiagram.TightFillIsExpanded` | runtime/quidd.cpp:57-67 | when no level is skipped below a node, `fill` expands it correctly |
| `DecisionDiagram.TightRoundTrip` | runtime/quidd.cpp:57-73 | when no level is skipped anywhere in the diagram, `to_vector(QuIDD(v)) == v` |
| `DecisionDiagram.FillIgnoresLevel` | runtime/quidd.cpp:64-66 | for x ≠ y the diagram of [x, y, x, y] means that state, but `fill` writes [x, x, y, y] |
| `DecisionDiagram.QuIDD.ToVectorByLevel` | runtime/quidd.cpp:69-73 | the corrected `to_vector` returns exactly the meaning of the root, so it inverts the constructor on every input |
| `DecisionDiagram.QuIDD.FillLevel` | runtime/quidd.cpp:57-67 | the corrected `fill` follows each node's `var` and writes its meaning into the range |
| `DecisionDiagram.QuIDD.NodeCount` | runtime/quidd.h:22 | `node_count()` is the arena size; since both tables are consulted before any node is created, it equals the number of different node structures, and the root is one of them |
| `DecisionDiagram.QuIDD.MemoryBytes` | runtime/quidd.h:23 | `memory_bytes()` is one `sizeof(Node)` (48 bytes on a 64-bit target) per different node structure, at least one node's worth for a valid diagram; `GhzConversion` shows it is below the dense byte size for GHZ |
| `DecisionDiagram.GhzDiagram` | tests/quidd_conversion_test.cpp:14-18 | the GHZ state on n ≥ 2 qubits gives a diagram of at most 2n + 1 nodes with no skipped level, whose `fill` is the state itself |
| `DecisionDiagram.GhzSmaller` | runtime/quidd.h:23 | for n ≥ 6, 2n + 1 nodes of `sizeof(Node)` bytes take less than 2^n complex doubles |
| `DecisionDiagram.GhzConversion` | tests/quidd_conversion_test.cpp:14-22 | a GHZ state converts back to itself, and the diagram takes fewer bytes than the dense vector |
| `OpDecoding.Stoul` | runtime/partitioner.cpp:43 | `std::stoul` in base 10, on 64-bit values: None where it throws (no digits, or out of range) |
| `OpDecoding.StoulDecimal` | runtime/partitioner.cpp:43 | leading white space, the decimal digits of n and any non-digit tail parse back to n |
| `OpDecoding.StoulNegative` | runtime/partitioner.cpp:43 | "-n" parses to 2^64 − n, as `strtoul` negates |
| `OpDecoding.StoulNoDigits` | runtime/partitioner.cpp:43 | a string without digits throws |
| `OpDecoding.Operands` | runtime/partitioner.cpp:48-54 | the (register, index) pairs after the name, or None exactly when some index fails to parse |
| `OpDecoding.Classify` | runtime/partitioner.cpp:39-58 | the branch the analysis loop takes for an operation: QALLOC with 3 fields, CNOT/CZ/SWAP with 5, CCX with 7, a throw, or nothing |
| `OpDecoding.ClassifySingle` | runtime/partitioner.cpp:39-58 | single-qubit gates and unknown names never register or link a qubit |
| `OpDecoding.ClassifyCouple` | runtime/partitioner.cpp:47-57 | a multi-qubit gate of the right size couples its operands, or throws exactly when an index does not parse |
| `UnionFind.RootOf` | runtime/partitioner.cpp:12 | following `parent` ends at a root r with `parent[r] == r` |
| `UnionFind.AddKeeps` | runtime/partitioner.cpp:11 | a new element is its own root and every other root is unchanged |
| `UnionFind.CompressSame` | runtime/partitioner.cpp:12 | pointing an element straight at its root changes no element's root |
| `UnionFind.LinkMerges` | runtime/partitioner.cpp:13 | hanging root b under root a joins the two sets and leaves every other element's root alone |
| `UnionFind.DSU.Add` | runtime/partitioner.cpp:11 | returns the old size as a fresh singleton and keeps every other element's root |
| `UnionFind.DSU.Find` | runtime/partitioner.cpp:12 | returns the root of x, which satisfies `parent[r] == r`, and path compression changes no element's root |
| `UnionFind.DSU.Unite` | runtime/partitioner.cpp:13 | afterwards `find(a) == find(b)`; every element of b's old set now carries a's root, and every other element keeps its root |
| `Connectivity.JoinedExtend` | runtime/partitioner.cpp:50 | adding the link (u, v) joins x and y exactly when they were joined before or are joined through u and v |
| `Grouping.MembersIff` | runtime/partitioner.cpp:62-64 | the members collected for a root are exactly the qubits with that root, in registration order |
| `Grouping.FirstPosIff` | runtime/partitioner.cpp:65 | `first_idx` records exactly each root's first registration index |
| `Grouping.GroupsAll` | runtime/partitioner.cpp:60-71 | the per-root maps, sorted by first index, give exactly the reference grouping |
| `Grouping.OutputExactlyOnce` | runtime/partitioner.cpp:62-66 | every registered qubit is in exactly one group |
| `Grouping.OutputInOrder` | runtime/partitioner.cpp:67-71 | groups are ordered by their first qubit's registration index, and each group keeps registration order |
| `Grouping.OutputTotal` | runtime/partitioner.cpp:62-71 | the group sizes add up to the number of registered qubits |
| `Grouping.OutputCongruent` | runtime/partitioner.cpp:62-71 | the grouping depends only on which qubits share a root, not on the roots' numbers |
| `Separability.AllocRefs` | runtime/partitioner.cpp:41-46 | `QALLOC reg n` registers reg[0] … reg[n−1] in that order |
| `Separability.RegisterKeeps` | runtime/partitioner.cpp:30-37 | `get_id` only appends qubits that are new, and never registers a qubit twice |
| `Separability.Effects` | runtime/partitioner.cpp:39-58 | the analysis loop's branch for every operation, in order |
| `Separability.RegisteredDistinct` | runtime/partitioner.cpp:30-37 | the registration list has no repeats |
| `Separability.RegisteredIff` | runtime/partitioner.cpp:39-58 | a qubit is registered exactly when a QALLOC or a CNOT/CZ/SWAP/CCX operand names it |
| `Separability.EdgesRegistered` | runtime/partitioner.cpp:47-57 | every link joins two registered qubits |
| `Separability.CoupledJoined` | runtime/partitioner.cpp:47-57 | any two operands of one multi-qubit gate are joined |
| `Separability.LinkLabelsIff` | runtime/partitioner.cpp:62-66 | in the reference labelling, two qubits share a label exactly when a chain of links joins them |
| `Separability.PartitionsCover` | runtime/partitioner.cpp:62-71 | a qubit lies in some partition exactly when it is registered, and then in exactly one |
| `Separability.PartitionsTogether` | runtime/partitioner.cpp:47-57 | two qubits share a partition exactly when a chain of CNOT/CZ/SWAP/CCX operand sets links them |
| `Separability.PartitionsOrdered` | runtime/partitioner.cpp:62-71 | partitions are non-empty and ordered by registration index of their first qubit, with members in registration order |
| `Separability.PartitionsTotal` | runtime/partitioner.cpp:62-71 | the partition sizes add up to the number of registered qubits |
| `Separability.ExamplePartitions` | tests/partitioner_test.cpp:8-15 | registers a[1] and b[1] with only single-qubit gates give the two partitions [a0] and [b0] |
| `Partitioner.RegisterFresh` | runtime/partitioner.cpp:33-36 | registering a new qubit adds a singleton set at the next id |
| `Partitioner.UniteRepresents` | runtime/partitioner.cpp:50 | after `unite(a, b)` the forest represents the link graph with the edge (a, b) added |
| `Partitioner.GetId` | runtime/partitioner.cpp:30-37 | returns the qubit's id, registering it first if it is new, and updates the bookkeeping to match |
| `Partitioner.RegisterAll` | runtime/partitioner.cpp:44-46 | `get_id` over a list of qubits registers exactly the new ones, in order, and returns each one's id |
| `Partitioner.CoupleStep` | runtime/partitioner.cpp:47-57 | after registering a gate's operands and uniting them, the forest represents the links with that gate's links added |
| `Partitioner.ScanOps` | runtime/partitioner.cpp:39-58 | the scan throws exactly when some index fails to parse; otherwise it ends with the registration list and a forest whose sets are the connected components |
| `Partitioner.Collect` | runtime/partitioner.cpp:60-66 | fills `parts` and `first_idx` with each root's members and first index without changing any root |
| `Partitioner.Ordered` | runtime/partitioner.cpp:67-68 | the partitions keyed by first index, one per root |
| `Partitioner.OrderParts` | runtime/partitioner.cpp:67-71 | the sorted output is exactly the reference grouping |
| `Partitioner.AbortsIff` | runtime/partitioner.cpp:43-54 | the analysis throws exactly when some operation has an index that fails to parse |
| `Partitioner.SpecAgrees` | runtime/partitioner.cpp:60-73 | grouping by any labelling whose labels match the connected components gives the reference partitions |
| `Partitioner.AnalyzeSeparableRegions` | runtime/partitioner.cpp:26-73 | returns None exactly when the analysis throws, and otherwise the connected components of the coupling graph in registration order |
| `PartitionedExecution.TensorAt` | runtime/partitioner.cpp:16-23 | the product has length \|a\|·\|b\|, and entry `i·|b| + j` is `a[i]·b[j]` |
| `PartitionedExecution.TensorProduct` | runtime/partitioner.cpp:16-23 | the nested loops fill exactly the Kronecker product |
| `PartitionedExecution.FillRow` | runtime/partitioner.cpp:20-21 | the inner loop completes one row of the product |
| `PartitionedExecution.TensorOne` | runtime/partitioner.cpp:117 | the start vector {1} is a unit of the product |
| `PartitionedExecution.TensorAssoc` | runtime/partitioner.cpp:118-120 | the product is associative, so folding from the left equals nesting from the right |
| `PartitionedExecution.FirstMostSignificant` | runtime/partitioner.cpp:116-121 | the first partition occupies the most significant index bits of the recombined state |
| `PartitionedExecution.LastLeastSignificant` | runtime/partitioner.cpp:116-121 | the last partition occupies the least significant index bits |
| `PartitionedExecution.TensorAllLength` | runtime/partitioner.cpp:116-121 | regions of 2^\|part\| amplitudes recombine to 2^(total qubits) amplitudes |
| `PartitionedExecution.LocUpTo` | runtime/partitioner.cpp:79-84 | `loc` maps every partitioned qubit to its partition and its position inside it |
| `PartitionedExecution.EnterRow` | runtime/partitioner.cpp:81-83 | the inner loop enters one partition's qubits at their positions |
| `PartitionedExecution.InitialState` | runtime/partitioner.cpp:80 | a region starts as the \|0…0⟩ state of its qubits, or empty on the disk path |
| `PartitionedExecution.Allocate` | runtime/partitioner.cpp:79-84 | builds the location map and one fresh initial region per partition |
| `PartitionedExecution.AddRegion` | runtime/partitioner.cpp:80-83 | one pass of the set-up loop adds a fresh region and enters its qubits |
| `PartitionedExecution.ReplayOp` | runtime/partitioner.cpp:86-113 | one replayed operation keeps every region's size; it is None exactly where a `stoul` or a `loc.at` throws |
| `PartitionedExecution.ApplySingle` | runtime/partitioner.cpp:88-96 | a single-qubit gate changes only its own region, applied at the qubit's position there |
| `PartitionedExecution.ApplyPair` | runtime/partitioner.cpp:101-105 | CNOT, CZ or SWAP changes only the region both qubits share |
| `PartitionedExecution.ApplyCcx` | runtime/partitioner.cpp:111-112 | CCX changes only the region all three qubits share |
| `PartitionedExecution.ReplayOne` | runtime/partitioner.cpp:86-113 | one pass of the replay loop on the regions' objects does exactly what the reference step does, or reports the throw |
| `PartitionedExecution.ReplayAll` | runtime/partitioner.cpp:85-114 | the replay loop leaves the regions in the reference replayed state, or reports the first throw |
| `PartitionedExecution.ReplayStaysNone` | runtime/partitioner.cpp:85-114 | after a throw no later operation runs |
| `PartitionedExecution.Recombine` | runtime/partitioner.cpp:116-120 | the recombination loop computes the Kronecker product of the regions in partition order |
| `PartitionedExecution.ExecutePartitions` | runtime/partitioner.cpp:75-123 | returns the amplitudes the reference execution gives, or None where the runtime throws |
| `PartitionedExecution.LocDomain` | runtime/partitioner.cpp:79-84 | `loc` holds exactly the registered qubits, each at a valid partition and position |
| `PartitionedExecution.CoupledTogether` | runtime/partitioner.cpp:100 | every operand of a multi-qubit gate lies in the same partition as the first operand, so the cross-partition skips are never taken |
| `PartitionedExecution.PairGateApplied` | runtime/partitioner.cpp:97-105 | a well-formed CNOT/CZ/SWAP always reaches its region and is applied there |
| `PartitionedExecution.CcxGateApplied` | runtime/partitioner.cpp:106-112 | a well-formed CCX always reaches its region and is applied there |
| `PartitionedExecution.SingleGateResolved` | runtime/partitioner.cpp:87-96 | a single-qubit gate on an unregistered qubit throws at `loc.at`; on a registered one it is applied at the qubit's position in its partition |
| `PartitionedExecution.DiskPathUpward` | runtime/wavefunction.cpp:24 | a region that takes the disk path forces every larger register onto it |
| `PartitionedExecution.ExecutedLength` | runtime/partitioner.cpp:116-121 | without the disk path, the result has 2^(registered qubits) amplitudes |
| `PartitionedExecution.ExampleExecuted` | tests/partitioner_test.cpp:16-20 | H on a[0] and X on b[0] recombine to the amplitudes (0, f, 0, f) |
| `Patterns.MatchQft2` | runtime/patterns.cpp:23-50 | a match needs 5 operations from pos |
| `Patterns.MatchQft2Sound` | runtime/patterns.cpp:23-50 | a match means the window is exactly `H r q1; CNOT r q1 r q0; S r q0; H r q0; SWAP r q0 r q1` |
| `Patterns.MatchQft2Complete` | runtime/patterns.cpp:23-50 | every such window matches, with those roles |
| `Patterns.MatchGrover2` | runtime/patterns.cpp:52-84 | a match needs 7 operations from pos |
| `Patterns.MatchGrover2Sound` | runtime/patterns.cpp:52-84 | a match means the window is exactly the H, H, CNOT, Z, CNOT, H, H shape with the roles at lines 73-80 |
| `Patterns.MatchGrover2Complete` | runtime/patterns.cpp:52-84 | every such window matches, with those roles |
| `Patterns.MatchLocal` | runtime/patterns.cpp:28-38 | a matcher reads only its window |
| `Patterns.OptimizePatterns` | runtime/patterns.cpp:86-104 | the loop's output is the reference rewrite; it tiles the input with one origin per output op that is a copy or a folded window |
| `Patterns.RewriteTiles` | runtime/patterns.cpp:88-101 | QFT2 is tried first; a QFT2 match becomes `{QFT2, reg, q0, q1}` for 5 ops, a GROVER2 match becomes `{GROVER2, reg, q0, q1}` for 7 ops, and every other op is copied unchanged and in order |
| `Patterns.TilingUnique` | runtime/patterns.cpp:86-104 | there is only one output that tiles the input that way |
| `Patterns.TilingWidths` | runtime/patterns.cpp:86-104 | the consumed length is the number of outputs plus 4 per QFT2 and 6 per GROVER2 |
| `Patterns.OptimizedLength` | runtime/patterns.cpp:100-103 | the output length is input − 4·#QFT2 − 6·#GROVER2, which is at most the input length |
| `Patterns.NoMatchInOutput` | runtime/patterns.cpp:86-104 | no window of the output matches: emitted stubs have 4 fields, and a raw window was already a failed window in the input |
| `Patterns.CleanFixed` | runtime/patterns.cpp:86-104 | a list with no matching window is left unchanged |
| `Patterns.OptimizeIdempotent` | runtime/patterns.cpp:86-104 | running `optimize_patterns` a second time changes nothing |
| `Patterns.RenderAll` | runtime/patterns.cpp:5-21 | the gates a helper issues, written in the instruction format |
| `Patterns.Qft2Recognised` | runtime/patterns.cpp:5-11 | the gates `apply_qft2` issues are exactly the window `match_qft2` folds, with the same q0/q1 roles |
| `Patterns.Grover2Recognised` | runtime/patterns.cpp:13-21 | the gates `apply_grover2` issues are exactly the window `match_grover2` folds, with the same roles |
| `Patterns.ApplyQft2` | runtime/patterns.cpp:5-11 | the register's state is the five gates applied in order |
| `Patterns.ApplyGrover2` | runtime/patterns.cpp:13-21 | the register's state is the seven gates applied in order |
| `Paging.Overlay` | runtime/disk_pager.cpp:57-58 | writing a page overlays the buffer's slots on the file and leaves the rest of the file as it was |
| `Paging.DiskPager.constructor` | runtime/disk_pager.cpp:8-32 | every logical index holds 0, no page is resident, and `dirty` is false |
| `Paging.DiskPager.Flush` | runtime/disk_pager.cpp:51-61 | writes back only when a page is resident and dirty, and only that page's `min(page_size, total − base)` slots; then clears `dirty`; the logical contents are unchanged |
| `Paging.DiskPager.LoadPage` | runtime/disk_pager.cpp:40-49 | the page becomes resident with the logical contents unchanged; loading the resident page is a no-op; switching pages flushes first |
| `Paging.DiskPager.Fetch` | runtime/disk_pager.cpp:44-48 | reading a clean page from the file brings that page's slots into the buffer |
| `Paging.DiskPager.CopyIn` | runtime/disk_pager.cpp:47-48 | the buffer's first `count` slots receive the file's slots from the page base |
| `Paging.DiskPager.Read` | runtime/disk_pager.cpp:63-68 | returns the logical value at idx, which is the last value written there since construction or reset (0 if none); the contents are unchanged, page `idx / page_size` is resident, and `dirty` survives only if that page was already resident |
| `Paging.DiskPager.Write` | runtime/disk_pager.cpp:70-76 | the logical contents change at idx alone, page `idx / page_size` is resident, and `dirty` is true |
| `Paging.DiskPager.Reset` | runtime/disk_pager.cpp:78-90 | every logical index is 0, no page is resident, and `dirty` is false |
| `Paging.OverlayUpdate` | runtime/disk_pager.cpp:74 | writing one slot of the resident page changes the logical contents at that index alone |
| `Paging.OverlaySame` | runtime/disk_pager.cpp:41-49 | a buffer that holds the file's own slots adds nothing to the logical contents |
| `Paging.PageOf` | runtime/disk_pager.cpp:64-66 | index idx lies in page `idx / page_size` at slot `idx % page_size` |
| `Scheduling.Scheduler.AddTask` | runtime/scheduler.cpp:10-16 | the task joins the queue whatever the flags; nothing else changes |
| `Scheduling.Scheduler.Run` | runtime/scheduler.cpp:18-58 | every queued task is popped exactly once, in descending priority; the log is the concatenation of their messages, handler runs and dispatches, in that order; the run ends with an empty queue and `running` false |
| `Scheduling.Scheduler.PopAndRun` | runtime/scheduler.cpp:26-52 | the popped task has priority at least that of every task left; it is removed once, and its message, handler run and dispatch are logged |
| `Scheduling.PopStep` | runtime/scheduler.h:32-36 | popping a top task keeps the order descending and the popped tasks a permutation of the queue |
| `Scheduling.TopExists` | runtime/scheduler.h:32-37 | a non-empty queue always has a task of maximal priority to pop |
| `Scheduling.TaskCounts` | runtime/scheduler.cpp:49-52 | a task's handler runs once if present, and a QPU task with a backend makes exactly one backend call; other targets make none |
| `Scheduling.TraceCounts` | runtime/scheduler.cpp:49-52 | over a run, the handler runs equal the tasks with handlers, and the backend calls equal the QPU tasks (none without a backend) |
| `Scheduling.RunCountsAgree` | runtime/scheduler.cpp:26-27 | the counts do not depend on how tasks of equal priority are ordered |
| `Scheduling.Scheduler.Pause` | runtime/scheduler.cpp:129-132 | sets `paused` and changes nothing else |
| `Scheduling.Scheduler.Resume` | runtime/scheduler.cpp:134-140 | clears `paused` and changes nothing else |
| `Scheduling.Scheduler.Stop` | runtime/scheduler.cpp:119-127 | clears `running` and changes nothing else |
| `Scheduling.Scheduler.Wait` | runtime/scheduler.cpp:109-117 | clears `running` and changes nothing else |
| `Scheduling.ExampleQpuDispatch` | tests/scheduler_qpu_dispatch_test.cpp:13-24 | one QPU task with a handler and a backend logs its message, runs its handler once and calls the backend once |
| `Memory.QRegister.constructor` | runtime/memory.h:14 | a new register holds the state `Wavefunction(n)` builds |
| `Memory.QRegister.H` | runtime/memory.h:16 | forwards to `apply_h` |
| `Memory.QRegister.X` | runtime/memory.h:17 | forwards to `apply_x` |
| `Memory.QRegister.Y` | runtime/memory.h:18 | forwards to `apply_y` |
| `Memory.QRegister.Z` | runtime/memory.h:19 | forwards to `apply_z` |
| `Memory.QRegister.Cnot` | runtime/memory.h:20 | forwards to `apply_cnot` |
| `Memory.QRegister.Measure` | runtime/memory.h:21 | forwards to `measure` |
| `Memory.QRegister.Resize` | runtime/memory.h:22 | discards the state and replaces it with a fresh `Wavefunction(n)` |
| `Memory.CRegister.constructor` | runtime/memory.h:27 | n bits, all 0 |
| `Memory.MemoryManager.CreateQRegister` | runtime/memory.cpp:4-7 | appends one register and returns the old pool size; the existing registers, their states and the classical pool are unchanged |
| `Memory.MemoryManager.CreateCRegister` | runtime/memory.cpp:9-12 | the same for the classical pool; the new register has n zero bits |
| `Memory.MemoryManager.QReg` | runtime/memory.cpp:14-16 | succeeds exactly when 0 ≤ id < pool size, returning that register; `.at` throws otherwise |
| `Memory.MemoryManager.CReg` | runtime/memory.cpp:18-20 | the same for the classical pool |
| `Memory.ExampleIds` | runtime/memory.cpp:4-7 | two creations return consecutive ids |
| `Tracking.MemoryTracker.constructor` | runtime/memory_tracker.h:10-12 | disabled, with no samples |
| `Tracking.MemoryTracker.Start` | runtime/memory_tracker.h:14-18 | sets `enabled`, stores the start time and empties `samples` |
| `Tracking.MemoryTracker.Stop` | runtime/memory_tracker.h:20 | clears `enabled` and keeps `samples` |
| `Tracking.MemoryTracker.Record` | runtime/memory_tracker.h:22-28 | while disabled nothing changes; while enabled exactly one sample (elapsed time, bytes) is appended; with a monotonic clock, timestamps stay non-negative and nondecreasing |
| `Tracking.ExampleStartRecordStop` | tests/memory_tracker_test.cpp:8-15 | start, one record, then stop leaves exactly one sample, holding the byte count recorded |

`DecisionDiagram.QuIDD.NodeCount` and `DecisionDiagram.QuIDD.MemoryBytes`
model `node_count()` and `memory_bytes()` (runtime/quidd.h:22-23). They are
used through `GhzConversion`.

Where the source's own comments or declarations disagree with its code, the
model follows the code:

- `Target::MIXED` is used at runtime/scheduler.cpp:40 but is missing from the
  enum at runtime/scheduler.h:10. `Scheduling.Target` has all four cases.
- runtime/wavefunction.h does not declare the sparse fields or `compress`.
  The model follows runtime/wavefunction.cpp.
- The comment at runtime/sparse_wavefunction.cpp:70 is contradicted by the
  code. The code gives the dense Y matrix (+i into the set bit, −i into the
  clear bit), and that is what is modelled.
- `read` does not always leave `dirty` alone. When it switches pages, it
  flushes the old page first, which clears `dirty`.
- `QRegister` declares no `s` or `swap`, yet `apply_qft2` calls both.
  `Patterns.ApplyQft2` calls the state's `apply_s` and `apply_swap` for those
  two steps.

## Left out

- Concurrency: the OpenMP pragmas, `Scheduler::run_async`, the mutex and
  condition variable, and the worker join in `wait` and `stop`. The loops are
  sequential and the scheduler is synchronous.
- Randomness: the measurement draw is the `outcome`/`result` argument. The
  probability sums and the `sqrt` renormalisation are the `scale` argument.
- Floating point:
  - `real` arithmetic replaces `double`.
  - 1/√2 and e^{iπ/4} are parameters.
  - The `1e-12` threshold is the predicate `ComplexNumbers.Negligible`.
- Not modelled, being floating-point analytics:
  - the rotation gates (runtime/wavefunction.cpp:147-201);
  - `schmidt_low_rank` (runtime/wavefunction.cpp:421-478);
  - `detect_periodicity_ripple` (runtime/wavefunction.cpp:518-550).
- The GPU branch and the device flag: the CPU path is modelled. `gpu_kernels.h`
  is not part of this model.
- `apply_fused`'s static matrix cache is transparent memoisation. The model
  composes the matrix each time.
- `DenseWavefunction.Wavefunction.ApplyX` and the other gates never route
  through the pager. On the disk path the state is an empty vector, and a gate
  on it changes nothing, as in the source.
- `Paging.DiskPager.constructor` requires `page_elems > 0` unless the size is
  0, because the zero-filling loop never ends otherwise. `mkstemp`, the
  `fstream` plumbing, the destructor and the temporary file's removal are
  left out. The backing file is a `seq` of `total_size` values.
- `DecisionDiagram.QuIDD.constructor` requires a power-of-two, non-empty
  state. For any other size the `assert` at runtime/quidd.cpp:40 fails.
- `DecisionDiagram.QuIDD.MakeTerminal`: terminals are compared as exact
  complex values, where the source compares the two `double` fields with
  `==`. NaN and signed zero are not modelled.
- Unordered-map iteration order in `analyze_separable_regions` does not
  matter:
  - `Partitioner.OrderParts` scans first indices in increasing order, in
    place of `std::sort`. The keys are distinct, so the result is the same.
  - The hash functions of `QubitRef` and of the diagram keys are not
    modelled.
- `OpDecoding.Stoul` parses base 10 with a 64-bit `unsigned long`, white
  space as in the C locale and an optional sign. Other bases are not
  modelled, nor is the `idx` out-parameter.
- `PartitionedExecution.ReadsOperand` is required of the replay. The
  single-qubit branch reads `op[1]` and `op[2]` without checking the length,
  so the caller must supply both.
- `PartitionedExecution.ExecutePartitions` returns the recombined amplitude
  vector in place of a `Wavefunction`. `num_qubits = log2(size)` on a
  floating log is left out. A region on the disk path holds an empty vector,
  so its tensor product is empty, as in the source.
- `PartitionedExecution.AddRegion` enters a partition's qubits into `loc`
  before creating its state. The source does these in the other order; the
  two steps are independent.
- `Scheduling.Scheduler.Run` requires that the scheduler is not paused, or
  that the queue is empty. While paused with tasks queued, the source loops
  forever, since nothing in the synchronous `run` clears the flag. The model
  therefore has no paused branch in the loop.
- `Scheduling.Scheduler.Run`: the per-task `memory.memory_usage()` call and
  `memory_tracker.record` are left out, because `MemoryManager` in the shown
  source defines no `memory_usage`. Log output is modelled as a `Logged`
  event carrying the message.
- Handlers are modelled as a presence flag on the task. Running one is a
  `Handled(name)` event, and a backend call is a `Dispatched(qir)` event.
  A handler that calls `add_task`, `stop` or `pause` on the global scheduler
  while `run` drains the queue is outside the model: in the source it would
  run tasks that were not queued when `run` began, or end the loop early.
  `Scheduling.Scheduler.Run`'s promises that every queued task is popped
  exactly once and that the queue ends empty assume handlers that do not
  touch the scheduler.
- `Memory.MemoryManager.CreateQRegister` and
  `Memory.MemoryManager.CreateCRegister` are modelled with their intended
  meaning:
  - The returned id is modelled without the `static_cast<int>` wrap-around.
  - memory.cpp does not compile against memory.h as shown: `emplace_back(n)`
    targets a vector of `unique_ptr`, and `.at` returns one. The model stores
    the registers themselves.
- Two more places where the shown source does not compile, each given its
  evident meaning:
  - `QRegister` (runtime/memory.h:12-23) declares no `s` and no `swap`, but
    `apply_qft2` calls both (runtime/patterns.cpp:8,10).
    `Patterns.ApplyQft2` calls the state's own `apply_s` and `apply_swap`.
  - `Target::MIXED` is used at runtime/scheduler.cpp:40 but is missing from
    the enum at runtime/scheduler.h:10. `Scheduling.Target` has all four
    cases.
- Machine integer widths in the dense state: `1ULL << n`, the `size_t` byte
  count and the shift counts in the kernels are unbounded `nat` values.
  `DenseWavefunction.DiskPath` and `DenseWavefunction.Wavefunction.constructor`
  are therefore exact and never fail. The source allocates the full
  `1ULL << n` vector before its disk test (runtime/wavefunction.cpp:22), so it
  throws `length_error` or `bad_alloc` for large n even on the disk path; the
  byte count wraps for n >= 60 (runtime/wavefunction.cpp:23); and a shift
  count of 64 or more is undefined behaviour. None of this is modelled.
- `release_qregister` and `release_cregister` are declared but never defined.
  Release, id reuse, the allocation counters, checkpointing, the
  resonance-zone cache, `memory_usage`, and import/export are not part of
  this model.
- `Tracking.MemoryTracker.Record` and `Start` take the clock reading as a
  `real` argument. `steady_clock` and the `duration<double>` conversion are
  left out. `save_csv` is file I/O and is left out.
- The configuration setters, the logger, the hardware profile, the command
  drivers under tools/ and the Python backends are not part of this model.

## Findings

| source | as written | input that shows it | evidently intended | confidence | as-written member | corrected member |
|---|---|---|---|---|---|---|
| runtime/quidd.cpp:57-67 | `fill` halves the output range at every internal node and ignores `node->var`. After `build` returns a low child for equal halves (runtime/quidd.cpp:46), a level is skipped, and the skipped node is then expanded at the wrong level. | the state [x, y, x, y] with x ≠ y: the diagram means that state, but `to_vector` gives [x, x, y, y] | `fill` repeats the node's meaning over every skipped level, so that `to_vector(QuIDD(v)) == v` for every power-of-two v | not executed | `DecisionDiagram.FillIgnoresLevel` | `DecisionDiagram.QuIDD.ToVectorByLevel` |

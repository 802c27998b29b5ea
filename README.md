# Quantum Audio circuit core in Dafny

This project models the classical core of the quantum-audio phase-shift
experiment:

- **`QuantumCircuit`** (`circuit.dfy`): the `Circuit` class. It holds an
  n-qubit register as an amplitude buffer of length 2^n. The constructor
  starts the buffer in the basis state |0…0⟩. `Measure` collapses one wire:
  it picks an outcome, copies the buffer, splits the copy into 2^(q+1) equal
  chunks, zeroes the chunks of the other parity, divides by the norm and
  installs the copy as the new buffer, which is a unit vector. `Reset` applies a
  Pauli-X gate to one wire, as an index permutation, when its flag is 1.
  The class invariant `Valid` says that the buffer has 2^n entries and is a
  unit vector; every operation keeps it.
  Wire 0 is the most significant bit of a basis index.
- **`Amplitudes`** (`amplitudes.dfy`): complex amplitudes as pairs of reals.
  It defines division by a real, the squared modulus, the squared norm of a
  buffer and a rescaled buffer.
- **`Fourier`** (`fourier.dfy`): the gate sequences that `qft` and `iqft`
  hand to the simulator, as a `seq<Gate>`. A gate is a Hadamard, a
  controlled real rotation `[[cos θ, −sin θ], [sin θ, cos θ]]` by
  θ = ±2π/2^e of the target wire, or a swap, each with its
  control wires and control values. The module proves the position of every
  gate and the gate counts. It also proves that the uncontrolled `iqft` is
  the swap stage followed by the `qft` stage reversed with its angles
  negated.
- **`ChunkPostProcess`** (`postprocess.dfy`): `qpte_post_process_chunks`.
  The processed chunks are transposed with `zip(*x)`, each column is
  concatenated, and the result is unpacked into the four streams y00, y01,
  y10 and y11. Both unpacking errors of the four-name unpacking are modelled:
  fewer than four columns and more than four.
- **`Wrappers`** (`wrappers.dfy`): `Option` and `Result`.

## Model

| member | source | states |
|---|---|---|
| QuantumCircuit.Circuit.constructor | POC/Circuit.py:5-8 | The buffer is fresh, has length 2^qubits, holds 1 at index 0 and 0 everywhere else, and is a unit vector (`Valid`). |
| QuantumCircuit.BasisNormSq | POC/Circuit.py:7-8 | The initial buffer has squared norm 1. |
| QuantumCircuit.BasisCollapse | POC/Circuit.py:7-8 | In the initial buffer every wire reads 0. Collapsing onto 0 keeps the buffer, and collapsing onto 1 leaves squared norm 0. |
| QuantumCircuit.Outcome | POC/Circuit.py:29-31 | A forced result is used as given. Otherwise the outcome is 1 exactly when the draw u is below p. With u in [0,1), p ≤ 0 always gives 0 and p ≥ 1 always gives 1. |
| QuantumCircuit.Copy | POC/Circuit.py:32 | The result is a fresh array with the same amplitudes, as `np.array(np.split(...))` copies the buffer. |
| QuantumCircuit.ZeroBlocks | POC/Circuit.py:32-34 | After the loop over the chunks of parity 1-r, the buffer equals `Collapsed`: each entry is kept if its wire-q bit is r and is zero otherwise. |
| QuantumCircuit.ZeroNextBlock | POC/Circuit.py:33 | Zeroing the next chunk of parity 1-r extends the zeroed prefix by two chunks and keeps every other entry. |
| QuantumCircuit.ZeroedAll | POC/Circuit.py:32-34 | Once every chunk of parity 1-r is zero, the buffer is the collapse onto r. |
| QuantumCircuit.ZeroBlock | POC/Circuit.py:33 | Exactly the entries of one chunk become zero. Every other entry is unchanged. |
| QuantumCircuit.Rescale | POC/Circuit.py:35 | Every amplitude is divided by the norm. |
| QuantumCircuit.Circuit.Measure | POC/Circuit.py:21-36 | Returns p and the chosen outcome. The new buffer is a fresh array: the old one collapsed onto the outcome and divided by the norm. Entry i is old[i]/norm when its wire-q bit equals the outcome, and 0 otherwise. The new buffer has squared norm 1. |
| QuantumCircuit.CollapseSplitsNorm | POC/Circuit.py:29-34 | The squared norms of the two possible collapses add up to the squared norm of the buffer. |
| QuantumCircuit.MeasureAgainKeeps | POC/Circuit.py:32-35 | Measuring the same wire again with the same outcome leaves the rescaled buffer unchanged. |
| QuantumCircuit.MeasureAgainOpposite | POC/Circuit.py:32-35 | After a measurement, the opposite outcome on the same wire has squared norm 0. |
| QuantumCircuit.FlipIndex | POC/Circuit.py:60 | The index partner under X on wire q stays within the buffer and has the opposite wire-q bit. |
| QuantumCircuit.FlipKeepsOtherWires | POC/Circuit.py:60 | X on wire q leaves the bit of every other wire of every index unchanged. |
| QuantumCircuit.Circuit.Reset | POC/Circuit.py:51-64 | With flag 1, the buffer is replaced by its X-permuted copy. With any other flag it is unchanged. The squared norm is kept, so the buffer stays a unit vector (`Valid`). |
| QuantumCircuit.FlippedNormSq | POC/Circuit.py:60 | X on any wire keeps the squared norm of the buffer. |
| QuantumCircuit.FlipSwapsBlocks | POC/Circuit.py:60 | X on wire q exchanges every even block of 2^(n-q-1) entries with the odd block after it. |
| QuantumCircuit.BlocksSwappedNormSq | POC/Circuit.py:60 | Exchanging the two halves of every pair of blocks keeps the squared norm. |
| QuantumCircuit.FlippedInvolution | POC/Circuit.py:60 | Applying X twice to the same wire restores the buffer. |
| QuantumCircuit.CollapseAfterFlip | POC/Circuit.py:32-34 | Collapsing onto r after X on wire q equals X applied after collapsing onto 1-r. |
| QuantumCircuit.ResetTwice | POC/Circuit.py:63-64 | Two resets with flag 1 on one wire leave the amplitudes as they were. |
| Amplitudes.NormSqSplit | POC/Circuit.py:35 | If two buffers split the squared moduli of a third pointwise, their squared norms add up to the third's. |
| Amplitudes.NormSqAllZero | POC/Circuit.py:33 | A buffer of zeros has squared norm 0. |
| Amplitudes.NormSqSingle | POC/Circuit.py:7-8 | A buffer that is zero except at one index has the squared modulus of that entry as its squared norm. |
| Amplitudes.NormSqAppend | POC/Circuit.py:35 | The squared norm of a concatenation is the sum of the parts' squared norms. |
| Amplitudes.NormSqScaled | POC/Circuit.py:35 | Dividing a buffer by c divides its squared norm by c². |
| Amplitudes.Normalised | POC/Circuit.py:35 | Dividing a buffer of nonzero squared norm by its norm leaves a buffer of squared norm 1. |
| Fourier.Qft | POC/Circuit.py:85-125 | The gate sequence has \|wires\| Hadamards, \|wires\|·(\|wires\|-1)/2 rotations and \|wires\|/2 swaps, and is empty for no wires. |
| Fourier.QftAt | POC/Circuit.py:96-110 | Block j starts at Offset(\|wires\|,0,j). Its first gate is the controlled Hadamard on wires[j]. Then, for each k > j, comes the rotation onto target with exponent 1+k-j and sign +1, controlled by the external controls plus wires[j] and wires[k] with values 1, 1. |
| Fourier.QftSwapAt | POC/Circuit.py:111-123 | The sequence ends with the \|wires\|/2 controlled swaps. Swap i exchanges wires[i] with wires[\|wires\|-1-i]. |
| Fourier.QftShapes | POC/Circuit.py:96-123 | Every gate of qft acts on the given wires and carries the given controls. Rotations carry two extra controls with values 1, 1 and an exponent between 2 and \|wires\|. |
| Fourier.SwapsDisjoint | POC/Circuit.py:111-123 | The swap stage has \|wires\|/2 gates. For distinct wires, every one of them is a swap of two different wires, and no two of them share a wire. |
| Fourier.Iqft | POC/Circuit.py:127-144 | The sequence is the uncontrolled swaps followed by the uncontrolled qft stage reversed with every rotation angle negated. It has the same gate counts as qft. |
| Fourier.IqftSwapAt | POC/Circuit.py:131-132 | The first \|wires\|/2 gates are the uncontrolled swaps of wires[i] with wires[\|wires\|-1-i]. |
| Fourier.StageInverted | POC/Circuit.py:133-142 | The iqft rotation-and-Hadamard stage is the uncontrolled qft stage reversed with its angles negated. |
| Fourier.QftStageFromIqft | POC/Circuit.py:96-110 | Conversely, the uncontrolled qft stage is the iqft stage reversed with its angles negated. |
| Fourier.RotationsInverted | POC/Circuit.py:134-141 | The iqft rotations for one wire are the qft rotations for that wire, reversed and negated. |
| Fourier.InvertedInvolution | POC/Circuit.py:135 | Reversing and negating twice gives back the original gate sequence. |
| Fourier.InvertedAppend | POC/Circuit.py:133-134 | Reversing and negating a concatenation reverses the order of its two parts. |
| Fourier.CountInverted | POC/Circuit.py:133-142 | Reversing and negating keeps the number of gates of each kind. |
| Fourier.StageCounts | POC/Circuit.py:96-110 | The stage from wire j0 has \|wires\|-j0 Hadamards, and (\|wires\|-j0)(\|wires\|-j0-1)/2 rotations and no swaps. |
| Fourier.SwapsCounts | POC/Circuit.py:111 | The swap stage has only swaps, \|wires\|/2 - j0 of them. |
| ChunkPostProcess.MinArity | slurm/quantumaudio_qpte_parallel.py:41 | zip's column count is at most every chunk's arity and equals the arity of some chunk. |
| ChunkPostProcess.PostProcess | slurm/quantumaudio_qpte_parallel.py:39-42 | This succeeds exactly when there is at least one chunk and the shortest chunk has four components. Fewer than four columns (and in particular no chunks, which gives 0) fail with "not enough values" carrying the column count; more than four fail with "too many values". Output i is the concatenation of component i of every chunk. |
| ChunkPostProcess.TermLength | slurm/quantumaudio_qpte_parallel.py:41 | Output i has as many samples as component i of all chunks together. |
| ChunkPostProcess.TermLayout | slurm/quantumaudio_qpte_parallel.py:41 | Output i has as many samples as component i of all chunks together. Sample k of chunk c's component i comes after the samples of that component in the chunks before c. |
| ChunkPostProcess.PostProcessSingle | slurm/quantumaudio_qpte_parallel.py:39-42 | A single four-component chunk gives back its four components. |
| ChunkPostProcess.PostProcessAppend | slurm/quantumaudio_qpte_parallel.py:41 | Post-processing two batches of chunks one after the other gives, stream by stream, the concatenation of their outputs. |
| ChunkPostProcess.ConcatAppend | slurm/quantumaudio_qpte_parallel.py:41 | Concatenation distributes over appending lists of arrays. |
| ChunkPostProcess.ConcatLength | slurm/quantumaudio_qpte_parallel.py:41 | The concatenation is as long as its parts together. |
| ChunkPostProcess.ConcatAt | slurm/quantumaudio_qpte_parallel.py:41 | Element k of part c sits right after all the elements of the parts before it. |
| ChunkPostProcess.MinArityAppend | slurm/quantumaudio_qpte_parallel.py:41 | zip of two concatenated batches has as many columns as the smaller of their two column counts. |

## Left out

- Simulator calls (`amplitudes`, `hadamard`, the PennyLane devices and qnodes): these are not modelled. The probability of reading 1 that `measure` gets from `qml.probs` is the parameter `p` of `Measure`.
- Randomness: the draw `np.random.rand()` is the parameter `u` of `Measure`.
- Floating point: amplitudes are exact complex numbers, written as pairs of reals. NaN and rounding are not modelled.
- QuantumCircuit.Circuit.Measure: the norm `np.linalg.norm` computes at POC/Circuit.py:35 is the parameter `norm`, tied to the buffer by the precondition `norm * norm == NormSq(collapsed buffer)`. The source has no zero-norm check: line 35 divides and the buffer becomes NaN. The model requires the collapsed buffer to have nonzero squared norm, the case where NaN arithmetic would be needed.
- QuantumCircuit.Circuit.Measure: the wire must lie inside the register. In the source a wire outside it is rejected by PennyLane in `amplitudes` (line 29) or makes `np.split` fail (line 32); that error path is not modelled.
- QuantumCircuit.Circuit.Measure: a forced result other than 0 or 1 is outside the model. The source would zero a different set of chunks for such a value.
- QuantumCircuit.Circuit.constructor: the code does not reject a register of 0 qubits (it builds a buffer of length 1). The model follows the code. Whether PennyLane accepts such a device is not modelled.
- QuantumCircuit.Circuit.Reset: a flag of 1 requires a wire inside the register. In the source, PennyLane raises an error for a wire outside it, and that error path is not modelled.
- Fourier: the gates are modelled as a symbolic sequence. The unitary each gate denotes, and the resulting state, are not computed. The simulator's validation of control lists is not modelled.
- The commented-out earlier `qft` (POC/Circuit.py:66-83) is dead code.
- `apply`, `batch_proc_qpte_parallel`, `process_single_chunk`, `main` and Simple_effect_1.py are not part of this model: they are process pools, file I/O and foreign simulator calls.
- ChunkPostProcess.PostProcess: the arrays are one-dimensional sequences. Shape, dtype and the error numpy would raise for arrays of other ranks are not modelled.

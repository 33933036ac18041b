# QFT and QPE circuit builders, modelled in Dafny

This project models the circuit-building core of a small Qiskit toolkit:

- `apply_qft` and `create_qft_circuit` (src/qft_module.py) build the Quantum
  Fourier Transform. Each qubit gets a Hadamard followed by controlled phase
  rotations from every later qubit. A swap ladder then reverses the qubit
  order.
- `qpe_circuit` (src/qpe_module.py) assembles Quantum Phase Estimation. It
  applies Hadamards to the counting register and places the eigenstate
  preparation on the upper qubits. Counting qubit i then gets 2^i controlled
  copies of the unitary. The inverse QFT follows on the counting register,
  and each counting qubit is measured into its classical bit.
- `simulate_qpe` (src/qpe_module.py) reports the measurement outcomes in
  order of decreasing frequency. Each bitstring is reversed and read as a
  binary numeral d, which gives the phase estimate d / 2^(number of
  classical bits). The outcome map is returned unchanged.

A circuit is a `Circuits.Circuit` object with a fixed number of qubits and
classical bits and a list of gate values that its methods append to, as
Qiskit's `QuantumCircuit` does. `Valid()` holds while every appended gate
passes the validation Qiskit applies before it appends one:

- the qubit operands are in range and pairwise distinct;
- the classical operands are in range.

Angles are kept symbolic: `CP(k, adjoint, ctrl, tgt)` is the controlled
phase by pi / 2^k, or by -pi / 2^k when it is the adjoint. The unitary of
`qpe_circuit` and the gates of the eigenstate preparation are opaque values
(`Unitary`, `CU`, `Op`).

Every builder is an imperative method proved against a function that gives
the whole gate list: `Qft.QftGates`, `Qpe.Ladder` and `Qpe.QpeGates`.
Lemmas then prove what those lists contain:

- gate counts;
- the position and operands of every gate;
- well-formedness;
- the structure of the inverse;
- the placement of each stage of QPE.

The report loop is a method proved against the pure sort `ByFrequency` and
the decoder `DecodePhase`. Their properties are lemmas:

- the sort's result is ordered and a permutation of its input;
- the sort is stable, and sorting is idempotent;
- decoding fails exactly on non-binary outcomes;
- the decoded phase lies in [0, 1);
- encoding then decoding gives back the phase.

Files:

- `Common.dfy`: `Option` and `Pow2`.
- `Circuits.dfy`: the gate datatype, the circuit class, `compose` remapping
  and `inverse()`.
- `Qft.dfy`: `apply_qft` and `create_qft_circuit`.
- `Qpe.dfy`: `qpe_circuit`.
- `PhaseDecode.dfy`: the report part of `simulate_qpe`.

## Model

| member | source | states |
|---|---|---|
| Circuits.Circuit.constructor | src/qpe_module.py:19 | `QuantumCircuit(total_qubits, n_count)` is an empty, valid circuit with exactly the requested numbers of qubits and classical bits |
| Circuits.Circuit.Hadamard | src/qpe_module.py:21 | `h(qs)` appends one Hadamard per listed qubit, in list order, and keeps every gate in range |
| Circuits.Circuit.ControlledPhase | src/qft_module.py:19-20 | `cp(angle, ctrl, tgt)` appends exactly that controlled phase, when the two qubits are distinct and in range |
| Circuits.Circuit.SwapQubits | src/qft_module.py:23 | `swap(a, b)` appends exactly that swap, when the two qubits are distinct and in range |
| Circuits.Circuit.ComposeControlled | src/qpe_module.py:26-28 | composing `unitary.control()` onto `[i] + upper` appends one controlled unitary with control i and the upper qubits as targets; the qubit list must be one longer than the unitary's width |
| Circuits.Circuit.Compose | src/qpe_module.py:22 | `compose(other, qubits=m, inplace=True)` appends the other circuit's gates in order, with qubit x moved to m[x], and keeps the circuit valid |
| Circuits.Circuit.MeasureInto | src/qpe_module.py:33 | `measure(qs, cs)` appends the measurement of qs[i] into cs[i] for each i, in order |
| Circuits.Circuit.Inverse | src/qpe_module.py:32 | `inverse()` on a circuit without measurements gives a fresh circuit of the same size with the gate list reversed and each gate replaced by its adjoint |
| Circuits.Adjoint | src/qpe_module.py:32 | the adjoint of an invertible gate is again no measurement |
| Circuits.InverseGates | src/qpe_module.py:32 | the gate list of `inverse()`, position p holding the adjoint of position n-1-p; its contract gives as many gates as the original, and InverseInvolution, InverseCount and InverseWellFormed give its properties |
| Circuits.Remap | src/qpe_module.py:22 | a gate placed through `qubits=m` keeps its kind and classical bits, and its qubit x becomes m[x] |
| Circuits.RemapAll | src/qpe_module.py:22 | the placed gate list has one gate per original gate, in order |
| Circuits.InverseInvolution | src/qpe_module.py:32 | inverting a gate list twice gives back the original list |
| Circuits.InverseCount | src/qpe_module.py:32 | inversion keeps the number of gates of every kind |
| Circuits.InverseWellFormed | src/qpe_module.py:32 | the inverse of a well-formed gate list is well formed in the same circuit |
| Circuits.InverseCons | src/qpe_module.py:32 | the first gate of a list becomes the adjoint at the end of its inverse |
| Circuits.AdjointInvolution | src/qpe_module.py:32 | the adjoint of the adjoint of a gate is the gate itself |
| Circuits.AdjointShape | src/qpe_module.py:32 | a gate's adjoint has the same kind and acts on the same qubits |
| Circuits.RemapWellFormed | src/qpe_module.py:22 | placing a gate through a one-to-one qubit map into a circuit keeps it well formed |
| Circuits.RemapAllIdentity | src/qpe_module.py:32 | composing through `qubits=range(n)` leaves the gates unchanged |
| Circuits.RemapCount | src/qpe_module.py:22 | composing keeps the number of gates of every kind |
| Circuits.CountAppend | src/qft_module.py:16-23 | gate counts add up over concatenation |
| Qft.ApplyQft | src/qft_module.py:4-25 | `apply_qft` returns the same circuit object, and appends exactly `QftGates(qubits)` after the gates already there; it needs the listed qubits to be distinct and in range |
| Qft.CreateQftCircuit | src/qft_module.py:27-39 | `create_qft_circuit(n)` is a fresh, valid circuit with n qubits, no classical bits and exactly the QFT gate list on qubits 0..n-1 |
| Qft.QftCounts | src/qft_module.py:15-23 | n Hadamards, n(n-1)/2 controlled phases, floor(n/2) swaps and no measurement, and nothing else |
| Qft.RoundCounts | src/qft_module.py:17-20 | round i appends one Hadamard and n-1-i controlled phases, no swap and no measurement |
| Qft.PhaseCountsLinear | src/qft_module.py:16-20 | after m rounds, m Hadamards and Rotations(n, m) controlled phases, no swap or measurement, RoundStart(n, m) gates in all |
| Qft.ClosedForms | src/qft_module.py:16-20 | Rotations(n, m) = m(2n-1-m)/2 and RoundStart(n, m) = m(2n+1-m)/2 |
| Qft.PhaseCounts | src/qft_module.py:16-20 | after m rounds, m Hadamards and m(2n-1-m)/2 controlled phases have been appended, and round m starts at m(2n+1-m)/2 |
| Qft.PhaseGateAt | src/qft_module.py:16-20 | round i starts right after round i-1 ends; it opens with H(qubits[i]) and then has the controlled phase from qubits[i+d] onto qubits[i] with angle pi/2^d, for d = 1, ..., n-1-i in increasing order |
| Qft.PhaseGates | src/qft_module.py:16-20 | every gate of the rotation phase is a Hadamard on a listed qubit or a controlled phase from a later listed qubit onto an earlier one |
| Qft.PhasePrefix | src/qft_module.py:16-20 | later rounds never move a gate that an earlier round appended |
| Qft.QftRotations | src/qft_module.py:18-20 | every controlled phase goes from qubits[i+k] onto qubits[i], with angle exponent 1 <= k <= n-1 |
| Qft.QftSwaps | src/qft_module.py:22-23 | no swap appears among the rotations, and the t-th swap pairs qubits[t] with qubits[n-1-t] |
| Qft.SwapsDistinct | src/qft_module.py:22-23 | with distinct qubits no swap pairs a qubit with itself, and an odd list's middle qubit is in no swap |
| Qft.QftGateWellFormed | src/qft_module.py:16-23 | each appended gate acts only on listed qubits and is well formed in any circuit that holds them |
| Qft.QftWellFormed | src/qft_module.py:16-23 | every appended gate acts only on listed qubits and is well formed; the list holds no measurement |
| Qft.QftSmall | src/qft_module.py:15-23 | no qubits give no gates; one qubit gives a single Hadamard |
| Qft.QftThree | tests/qft_module.py:7-11 | `create_qft_circuit(3)` is not empty: it holds 7 gates |
| Qft.QftGates | src/qft_module.py:15-23 | the gate list `apply_qft` appends: the rounds of Hadamard and controlled phases, then the swaps; it holds no measurement, so `inverse()` applies to it |
| Qft.QftNoControlled | src/qft_module.py:16-23 | the QFT holds no controlled application of an opaque unitary |
| Qft.InverseQftAt | src/qpe_module.py:30-32 | one position p of the inverted QFT holds the adjoint of position n-1-p, on qubits below the bound, with a negated angle if it is a controlled phase |
| Qft.InverseQftShape | src/qpe_module.py:30-32 | in the inverted QFT, position p holds the adjoint of position n-1-p, every controlled phase has its angle negated, and every gate stays on the given qubits |
| Qpe.Ladder | src/qpe_module.py:24-28 | the gates of the repetition loops, counting qubit 0's copies first; every one is the controlled unitary (not its adjoint) with a counting qubit below n_count as control and the upper qubits as targets |
| Qpe.QpeGates | src/qpe_module.py:21-33 | the whole QPE gate list: Hadamards, placed eigenstate, ladder, inverse QFT, measurements; it holds n_count + len(eigenstate) + (2^n_count - 1) + len(QFT) + n_count gates |
| Qpe.AppendLadder | src/qpe_module.py:24-28 | the repetition loops append exactly `Ladder(u, upper, n_count)` and keep the circuit valid |
| Qpe.AppendInverseQft | src/qpe_module.py:30-32 | building the QFT on `range(n_count)`, inverting it and composing it onto `range(n_count)` appends exactly the inverted QFT gate list |
| Qpe.QpeCircuit | src/qpe_module.py:5-35 | `qpe_circuit` gives a fresh, valid circuit with n_count + eigenstate.num_qubits qubits and n_count classical bits that holds exactly `QpeGates`; when n_count > 0 the unitary's width must match the eigenstate (with n_count = 0 the unitary is never used), and the eigenstate's classical bits must fit |
| Qpe.QpeSplit | src/qpe_module.py:21-33 | the five stages in order, and the total length n_count + len(eigenstate) + 2^n_count - 1 + len(QFT) + n_count |
| Qpe.QpeHadamardsFirst | src/qpe_module.py:21 | the first n_count gates are H(0), ..., H(n_count-1) |
| Qpe.QpeEigenstatePlaced | src/qpe_module.py:22 | the eigenstate's gates follow in their own order, each moved onto qubit n_count + x and never onto a counting qubit |
| Qpe.LadderLength | src/qpe_module.py:24-28 | the ladder holds 2^n_count - 1 gates, every one a controlled unitary |
| Qpe.LadderAt | src/qpe_module.py:24-28 | counting qubit i's r-th copy (r < 2^i) sits at ladder position 2^i - 1 + r: control i, the upper qubits as targets |
| Qpe.QpeLadderPlaced | src/qpe_module.py:24-28 | the same placement inside the whole QPE gate list, before the inverse QFT starts |
| Qpe.QpeControlledCount | src/qpe_module.py:24-28 | the circuit holds 2^n_count - 1 controlled unitaries besides any in the eigenstate |
| Qpe.QpeInverseQftPlaced | src/qpe_module.py:30-32 | after the ladder comes the QFT on the counting qubits read backwards, each gate by its adjoint, with every controlled phase negated and only counting qubits touched |
| Qpe.QpeMeasuresLast | src/qpe_module.py:33 | the last n_count gates measure qubit k into classical bit k, in order |
| PhaseDecode.Reverse | src/qpe_module.py:55 | `outcome[::-1]` has the same length as the outcome (its characters are given by ReverseAt) |
| PhaseDecode.ReverseAt | src/qpe_module.py:55 | character k of `s[::-1]` is character len(s)-1-k of s |
| PhaseDecode.ReverseInvolution | src/qpe_module.py:55 | reversing twice gives back the bitstring |
| PhaseDecode.ReverseBinary | src/qpe_module.py:55-56 | a reversed string is a binary numeral exactly when the original is |
| PhaseDecode.MsbOfReverse | src/qpe_module.py:55-56 | reading the reversed outcome most significant digit first is reading the outcome least significant digit first |
| PhaseDecode.ParseBinary | src/qpe_module.py:56 | `int(s, 2)` succeeds exactly on a non-empty string of binary digits, and then gives a value below 2^len(s) |
| PhaseDecode.DecodePhase | src/qpe_module.py:55-57 | a decoded phase has denominator 2^num_clbits and a numerator below 2^len(outcome) |
| PhaseDecode.MsbBound | src/qpe_module.py:56-57 | an m-digit numeral is below 2^m |
| PhaseDecode.DecodeMeaning | src/qpe_module.py:55-57 | decoding fails (`int` raises ValueError) exactly on an empty or non-binary outcome; otherwise the numerator is the outcome read least significant digit first and the denominator is 2^num_clbits |
| PhaseDecode.DecodeInRange | src/qpe_module.py:55-57 | an outcome of at most num_clbits digits decodes to a phase in [0, 1) |
| PhaseDecode.MsbOfBinary | src/qpe_module.py:56 | `int(., 2)` of the width-digit numeral of d (d < 2^width) is d |
| PhaseDecode.DecodeRoundTrip | src/qpe_module.py:55-57 | the outcome whose reversal is the m-digit numeral of d decodes to exactly d / 2^m |
| PhaseDecode.ByFrequency | src/qpe_module.py:54 | the sorted items are as many as the items (order and permutation are ByFrequencySorted) |
| PhaseDecode.InsertSorted | src/qpe_module.py:54 | one insertion step keeps the list in non-increasing frequency and adds exactly the inserted entry |
| PhaseDecode.ByFrequencySorted | src/qpe_module.py:54 | `sorted(counts.items(), key=lambda x: -x[1])` is in non-increasing frequency and is a permutation of the items |
| PhaseDecode.ByFrequencyKeepsOrdered | src/qpe_module.py:54 | items already in non-increasing frequency come back unchanged |
| PhaseDecode.InsertWithFrequency | src/qpe_module.py:54 | inserting an entry puts it ahead of every entry of its own frequency and leaves the other frequencies' entries in order |
| PhaseDecode.ByFrequencyStable | src/qpe_module.py:54 | stability: for every frequency f, the entries with frequency f come out in the order they had among the items, as Python's `sorted` keeps them |
| PhaseDecode.ByFrequencyIdempotent | src/qpe_module.py:54 | sorting the sorted items again changes nothing |
| PhaseDecode.SimulateQpe | src/qpe_module.py:54-60 | the outcome map is returned unchanged; the report fails exactly when some outcome does not decode; otherwise it has one line per outcome (the same outcome and frequency pairs), each line's phase is that outcome's decoding, and frequencies do not increase from line to line |

## Left out

- The quantum semantics of the gates (amplitudes, the unitary matrix the QFT implements, the probability that QPE returns the right phase) is not modelled: the model is about which gates are appended, in which order, on which qubits.
- Angles are symbolic (`CP(k, adjoint, ...)` for +-pi/2^k); floating-point values of `np.pi / 2**(j-i)` and of the printed phase are not modelled, and the phase is kept as the exact pair d / 2^m.
- Qiskit raises `CircuitError` when a qubit or classical bit is out of range, when a gate names one qubit twice, or when a composed circuit does not fit. The model makes these conditions preconditions of the circuit methods rather than modelling the exception. For `apply_qft` they amount to the listed qubits being distinct and in range, because any repeated qubit ends up in some `cp`.
- Qft.ApplyQft: the angle `np.pi / (2 ** (j - i))` at src/qft_module.py:19 is kept symbolic, which removes an error path. Python's float division by an int raises OverflowError once 2 ** (j - i) exceeds the double range, i.e. j - i >= 1024. On 1025 or more qubits, `apply_qft` raises in round 0 at j = 1024, after appending H(qubits[0]) and 1023 controlled phases. The model instead appends the whole `QftGates(qubits)`.
- Qft.CreateQftCircuit: for the same reason, the model returns a circuit for n >= 1025, where `create_qft_circuit` raises OverflowError.
- Qubit indices are `nat`. Qiskit also accepts Python-style negative indices (-1 for the last qubit), and `apply_qft` passes them through unchanged. With those, distinctness of the raw integers is no longer the error condition. No caller uses negative indices, and they are not modelled.
- `unitary.control()` is modelled as always producing a controlled gate. The cases where Qiskit cannot build one (a unitary holding measurements or other non-unitary instructions) are not modelled.
- `execute`, the Aer backend, `shots=1024`, `job.result()` and `get_counts()` are I/O and randomness. The outcome map is a parameter of `SimulateQpe`, as a sequence of (bitstring, frequency) pairs, and `circuit.num_clbits` is the parameter `numClbits`.
- The printed summary lines (`print`) become the returned report lines; the six-digit formatting of the phase is not modelled.
- PhaseDecode.ParseBinary: accepts only non-empty strings of '0' and '1'. Python's `int(s, 2)` also accepts surrounding whitespace, a sign, a `0b` prefix and underscores between digits, which Qiskit's count keys never contain.
- Qiskit count keys with spaces between classical registers do not arise here, because `qpe_circuit` has one classical register; they are not modelled.
- `qpe_circuit` with n_count = 0 is allowed, as in the source. The model then gives the eigenstate gates and an empty ladder, QFT and measurement. The unitary's width need not match the eigenstate then, because the ladder loop never runs.
- Qpe.AppendLadder and Qpe.AppendInverseQft are not separate functions in the source: they are lines 24-28 and 30-32 of `qpe_circuit`, split out as methods of their own.
- Circuit depth (`qc.depth() > 0` in tests/qft_module.py) is not modelled; Qft.QftThree states the non-empty gate list instead.
- src/shor_algorithm.py, src/qubo_solver.py, main.py and the test fixtures are not part of this model.

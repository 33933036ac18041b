/** The Quantum Fourier Transform builder of src/qft_module.py, as the list
    of gates it appends. */
module Qft {
  import opened Circuits

  /** Round i of the rotation phase: H on qubits[i], then the controlled phase
      by pi / 2^(j-i) from qubits[j] onto qubits[i], for j = i+1, ..., n-1. */
  function Round(qubits: seq<nat>, i: nat): (r: seq<Gate>)
    requires i < |qubits|
    ensures |r| == |qubits| - i
  {
    [H(qubits[i])]
    + seq(|qubits| - i - 1, d requires 0 <= d < |qubits| - i - 1 =>
            CP(d + 1, false, qubits[i + 1 + d], qubits[i]))
  }

  /** Rounds 0, ..., m-1 one after the other. */
  function PhaseSection(qubits: seq<nat>, m: nat): seq<Gate>
    requires m <= |qubits|
  {
    if m == 0 then [] else PhaseSection(qubits, m - 1) + Round(qubits, m - 1)
  }

  /** The final ladder that reverses qubit order: qubits[i] with qubits[n-1-i] for i < n/2. */
  function SwapSection(qubits: seq<nat>): (r: seq<Gate>)
    ensures |r| == |qubits| / 2
  {
    var n := |qubits|;
    seq(n / 2, i requires 0 <= i < n / 2 => Swap(qubits[i], qubits[n - 1 - i]))
  }

  /** Every gate `apply_qft(circuit, qubits)` appends, in order. It holds no
      measurement, so `inverse()` applies to it. */
  function QftGates(qubits: seq<nat>): (r: seq<Gate>)
    ensures Reversible(r)
  {
    PhaseGates(qubits, |qubits|);
    PhaseSection(qubits, |qubits|) + SwapSection(qubits)
  }

  /** Where round i starts inside the rotation phase of an n-qubit QFT. */
  function RoundStart(n: nat, i: nat): nat
    requires i <= n
  {
    if i == 0 then 0 else RoundStart(n, i - 1) + (n - (i - 1))
  }

  /** The gates `apply_qft` has appended once round i has reached j. */
  function Progress(qubits: seq<nat>, i: nat, j: nat): seq<Gate>
    requires i < j <= |qubits|
  {
    PhaseSection(qubits, i) + Round(qubits, i)[..j - i]
  }

  lemma ProgressStep(qubits: seq<nat>, i: nat, j: nat)
    requires i < j < |qubits|
    ensures Progress(qubits, i, j + 1) == Progress(qubits, i, j) + [CP(j - i, false, qubits[j], qubits[i])]
  {
    var r := Round(qubits, i);
    assert r[..j + 1 - i] == r[..j - i] + [r[j - i]];
  }

  lemma ProgressFirst(qubits: seq<nat>, i: nat)
    requires i < |qubits|
    ensures Progress(qubits, i, i + 1) == PhaseSection(qubits, i) + HLayer([qubits[i]])
  {
    assert Round(qubits, i)[..1] == HLayer([qubits[i]]);
  }

  lemma ProgressLast(qubits: seq<nat>, i: nat)
    requires i < |qubits|
    ensures Progress(qubits, i, |qubits|) == PhaseSection(qubits, i + 1)
  {
    assert Round(qubits, i)[..|qubits| - i] == Round(qubits, i);
  }

  lemma SwapStep(prefix: seq<Gate>, qubits: seq<nat>, i: nat)
    requires i < |qubits| / 2
    ensures prefix + SwapSection(qubits)[..i + 1]
         == prefix + SwapSection(qubits)[..i] + [Swap(qubits[i], qubits[|qubits| - i - 1])]
  {
    var s := SwapSection(qubits);
    assert s[..i + 1] == s[..i] + [s[i]];
  }

  lemma SwapLast(qubits: seq<nat>)
    ensures PhaseSection(qubits, |qubits|) + SwapSection(qubits)[..|qubits| / 2] == QftGates(qubits)
  {
    assert SwapSection(qubits)[..|qubits| / 2] == SwapSection(qubits);
  }

  lemma AppendAssoc(a: seq<Gate>, b: seq<Gate>, c: seq<Gate>)
    ensures a + b + c == a + (b + c)
  {
  }

  /** The in-place builder `apply_qft`: appends QftGates(qubits) to the
      circuit it is given, leaves the gates already there as they were, and
      returns that same circuit. */
  method ApplyQft(circuit: Circuit, qubits: seq<nat>) returns (r: Circuit)
    requires circuit.Valid()
    requires Below(qubits, circuit.numQubits) && Distinct(qubits)
    modifies circuit
    ensures r == circuit && circuit.Valid()
    ensures circuit.gates == old(circuit.gates) + QftGates(qubits)
  {
    ghost var start := circuit.gates;
    var n := |qubits|;
    for i := 0 to n
      invariant circuit.Valid()
      invariant circuit.gates == start + PhaseSection(qubits, i)
    {
      circuit.Hadamard([qubits[i]]);
      ProgressFirst(qubits, i);
      AppendAssoc(start, PhaseSection(qubits, i), HLayer([qubits[i]]));
      for j := i + 1 to n
        invariant circuit.Valid()
        invariant circuit.gates == start + Progress(qubits, i, j)
      {
        circuit.ControlledPhase(j - i, qubits[j], qubits[i]);
        ProgressStep(qubits, i, j);
        AppendAssoc(start, Progress(qubits, i, j), [CP(j - i, false, qubits[j], qubits[i])]);
      }
      ProgressLast(qubits, i);
    }
    for i := 0 to n / 2
      invariant circuit.Valid()
      invariant circuit.gates == start + (PhaseSection(qubits, n) + SwapSection(qubits)[..i])
    {
      circuit.SwapQubits(qubits[i], qubits[n - i - 1]);
      SwapStep(PhaseSection(qubits, n), qubits, i);
      AppendAssoc(start, PhaseSection(qubits, n) + SwapSection(qubits)[..i], [Swap(qubits[i], qubits[n - i - 1])]);
    }
    SwapLast(qubits);
    r := circuit;
  }

  /** `create_qft_circuit(n)`: a fresh n-qubit circuit with no classical bits
      holding the QFT over qubits 0, ..., n-1. */
  method CreateQftCircuit(n: nat) returns (c: Circuit)
    ensures fresh(c) && c.Valid()
    ensures c.numQubits == n && c.numClbits == 0
    ensures c.gates == QftGates(Range(0, n))
  {
    c := new Circuit(n, 0);
    var _ := ApplyQft(c, Range(0, n));
  }

  /** A controlled phase as round i appends it: from qubits[i+k] onto qubits[i], angle pi / 2^k, 1 <= k <= n-1. */
  ghost predicate CpFrom(qubits: seq<nat>, g: Gate) {
    g.CP? && !g.adjoint && 1 <= g.k < |qubits| &&
    exists i :: 0 <= i < |qubits| - g.k && g.tgt == qubits[i] && g.ctrl == qubits[i + g.k]
  }

  ghost predicate PhaseGate(qubits: seq<nat>, g: Gate) {
    (g.H? && g.q in qubits) || CpFrom(qubits, g)
  }

  /** Every gate of the rotation phase is a Hadamard on one of the qubits or a controlled phase of that shape. */
  lemma {:induction false} PhaseGates(qubits: seq<nat>, m: nat)
    requires m <= |qubits|
    ensures forall p :: 0 <= p < |PhaseSection(qubits, m)| ==> PhaseGate(qubits, PhaseSection(qubits, m)[p])
  {
    if m > 0 {
      PhaseGates(qubits, m - 1);
      var before := PhaseSection(qubits, m - 1);
      var round := Round(qubits, m - 1);
      forall p | |before| <= p < |before| + |round|
        ensures PhaseGate(qubits, (before + round)[p])
      {
        var d := p - |before|;
        if d > 0 {
          var g := round[d];
          assert g.tgt == qubits[m - 1] && g.ctrl == qubits[m - 1 + g.k];
        }
      }
    }
  }

  lemma TriangleStep(n: int, m: int)
    ensures (m - 1) * (2 * n - 1 - (m - 1)) + 2 * (n - m) == m * (2 * n - 1 - m)
    ensures (m - 1) * (2 * n + 1 - (m - 1)) + 2 * (n - (m - 1)) == m * (2 * n + 1 - m)
  {
  }

  /** Round i holds one Hadamard, n-1-i controlled phases and nothing else. */
  lemma RoundCounts(qubits: seq<nat>, i: nat)
    requires i < |qubits|
    ensures Count(Round(qubits, i), KindH) == 1
    ensures Count(Round(qubits, i), KindCP) == |qubits| - 1 - i
    ensures Count(Round(qubits, i), KindSwap) == 0
    ensures Count(Round(qubits, i), KindMeasure) == 0
  {
    var round := Round(qubits, i);
    var rotations := round[1..];
    assert round == [H(qubits[i])] + rotations;
    CountAppend([H(qubits[i])], rotations, KindH);
    CountAppend([H(qubits[i])], rotations, KindCP);
    CountAppend([H(qubits[i])], rotations, KindSwap);
    CountAppend([H(qubits[i])], rotations, KindMeasure);
    CountUniform(rotations, KindCP, KindH);
    CountUniform(rotations, KindCP, KindSwap);
    CountUniform(rotations, KindCP, KindMeasure);
  }

  /** Controlled phases in the first m rounds of an n-qubit QFT. */
  function Rotations(n: nat, m: nat): nat
    requires m <= n
  {
    if m == 0 then 0 else Rotations(n, m - 1) + (n - m)
  }

  /** Closed forms of Rotations and RoundStart. */
  lemma {:induction false} ClosedForms(n: nat, m: nat)
    requires m <= n
    ensures 2 * Rotations(n, m) == m * (2 * n - 1 - m)
    ensures 2 * RoundStart(n, m) == m * (2 * n + 1 - m)
  {
    if m > 0 {
      ClosedForms(n, m - 1);
      TriangleStep(n, m);
    }
  }

  lemma {:induction false} PhaseCountsLinear(qubits: seq<nat>, m: nat)
    requires m <= |qubits|
    ensures Count(PhaseSection(qubits, m), KindH) == m
    ensures Count(PhaseSection(qubits, m), KindCP) == Rotations(|qubits|, m)
    ensures Count(PhaseSection(qubits, m), KindSwap) == 0
    ensures Count(PhaseSection(qubits, m), KindMeasure) == 0
    ensures |PhaseSection(qubits, m)| == RoundStart(|qubits|, m)
  {
    if m > 0 {
      PhaseCountsLinear(qubits, m - 1);
      var before := PhaseSection(qubits, m - 1);
      var round := Round(qubits, m - 1);
      assert PhaseSection(qubits, m) == before + round;
      RoundCounts(qubits, m - 1);
      CountAppend(before, round, KindH);
      CountAppend(before, round, KindCP);
      CountAppend(before, round, KindSwap);
      CountAppend(before, round, KindMeasure);
    }
  }

  /** Gate counts of the first m rounds of an n-qubit QFT: m Hadamards,
      m(2n-1-m)/2 controlled phases, no swap, and RoundStart(n, m) gates in all. */
  lemma PhaseCounts(qubits: seq<nat>, m: nat)
    requires m <= |qubits|
    ensures Count(PhaseSection(qubits, m), KindH) == m
    ensures 2 * Count(PhaseSection(qubits, m), KindCP) == m * (2 * |qubits| - 1 - m)
    ensures Count(PhaseSection(qubits, m), KindSwap) == 0
    ensures Count(PhaseSection(qubits, m), KindMeasure) == 0
    ensures |PhaseSection(qubits, m)| == RoundStart(|qubits|, m)
    ensures 2 * RoundStart(|qubits|, m) == m * (2 * |qubits| + 1 - m)
  {
    PhaseCountsLinear(qubits, m);
    ClosedForms(|qubits|, m);
  }

  /** `apply_qft` on n qubits appends n Hadamards, n(n-1)/2 controlled phases and
      n/2 swaps (integer division), n + n(n-1)/2 + n/2 gates in all, and no measurement. */
  lemma QftCounts(qubits: seq<nat>)
    ensures Count(QftGates(qubits), KindH) == |qubits|
    ensures Count(QftGates(qubits), KindCP) == |qubits| * (|qubits| - 1) / 2
    ensures Count(QftGates(qubits), KindSwap) == |qubits| / 2
    ensures Count(QftGates(qubits), KindMeasure) == 0
    ensures |QftGates(qubits)| == |qubits| + |qubits| * (|qubits| - 1) / 2 + |qubits| / 2
  {
    var n := |qubits|;
    PhaseCounts(qubits, n);
    var swaps := SwapSection(qubits);
    CountAppend(PhaseSection(qubits, n), swaps, KindH);
    CountAppend(PhaseSection(qubits, n), swaps, KindCP);
    CountAppend(PhaseSection(qubits, n), swaps, KindSwap);
    CountAppend(PhaseSection(qubits, n), swaps, KindMeasure);
    CountUniform(swaps, KindSwap, KindH);
    CountUniform(swaps, KindSwap, KindCP);
    CountUniform(swaps, KindSwap, KindMeasure);
    assert n * (2 * n - 1 - n) == n * (n - 1);
    assert n * (2 * n + 1 - n) == 2 * n + n * (n - 1);
  }

  /** Gates of round i keep their place once later rounds are appended. */
  lemma {:induction false} PhasePrefix(qubits: seq<nat>, m: nat, m': nat, p: nat)
    requires m <= m' <= |qubits| && p < |PhaseSection(qubits, m)|
    ensures p < |PhaseSection(qubits, m')| && PhaseSection(qubits, m')[p] == PhaseSection(qubits, m)[p]
  {
    if m < m' {
      PhasePrefix(qubits, m, m' - 1, p);
    }
  }

  /** Order of the rotation phase: round i starts at RoundStart(n, i) with
      H(qubits[i]), followed by CP(j-i, qubits[j], qubits[i]) for j = i+1, ..., n-1
      in increasing j; round i+1 starts right after round i ends. */
  lemma PhaseGateAt(qubits: seq<nat>, i: nat, d: nat)
    requires i < |qubits| && d < |qubits| - i
    ensures RoundStart(|qubits|, i + 1) == RoundStart(|qubits|, i) + (|qubits| - i)
    ensures RoundStart(|qubits|, i) + d < |QftGates(qubits)|
    ensures QftGates(qubits)[RoundStart(|qubits|, i) + d]
         == if d == 0 then H(qubits[i]) else CP(d, false, qubits[i + d], qubits[i])
  {
    var n := |qubits|;
    PhaseCountsLinear(qubits, i);
    var p := RoundStart(n, i) + d;
    assert PhaseSection(qubits, i + 1)[p] == Round(qubits, i)[d];
    PhasePrefix(qubits, i + 1, n, p);
  }

  /** Every controlled phase `apply_qft` appends goes from qubits[i+k] onto
      qubits[i] for some 0 <= i < i+k < n, with angle exponent 1 <= k <= n-1. */
  lemma QftRotations(qubits: seq<nat>)
    ensures forall p :: 0 <= p < |QftGates(qubits)| && QftGates(qubits)[p].CP? ==> CpFrom(qubits, QftGates(qubits)[p])
  {
    PhaseGates(qubits, |qubits|);
  }

  /** The swaps come last: none among the Hadamard/controlled-phase gates, and
      the t-th swap pairs qubits[t] with qubits[n-1-t]. */
  lemma QftSwaps(qubits: seq<nat>)
    ensures |QftGates(qubits)| == RoundStart(|qubits|, |qubits|) + |qubits| / 2
    ensures forall p :: 0 <= p < RoundStart(|qubits|, |qubits|) ==> !QftGates(qubits)[p].Swap?
    ensures forall t :: 0 <= t < |qubits| / 2 ==>
              QftGates(qubits)[RoundStart(|qubits|, |qubits|) + t] == Swap(qubits[t], qubits[|qubits| - 1 - t])
  {
    PhaseCountsLinear(qubits, |qubits|);
    PhaseGates(qubits, |qubits|);
  }

  /** With distinct qubits no swap pairs a qubit with itself, and the middle
      qubit of an odd-length list is in no swap. */
  lemma SwapsDistinct(qubits: seq<nat>)
    requires Distinct(qubits)
    ensures forall t :: 0 <= t < |qubits| / 2 ==> SwapSection(qubits)[t].a != SwapSection(qubits)[t].b
    ensures |qubits| % 2 == 1 ==>
              forall t :: 0 <= t < |qubits| / 2 ==> qubits[|qubits| / 2] !in Qubits(SwapSection(qubits)[t])
  {
  }

  lemma QftGateWellFormed(qubits: seq<nat>, p: nat, numQubits: nat, numClbits: nat)
    requires Below(qubits, numQubits) && Distinct(qubits)
    requires p < |QftGates(qubits)|
    ensures forall x :: x in Qubits(QftGates(qubits)[p]) ==> x in qubits
    ensures WellFormed(QftGates(qubits)[p], numQubits, numClbits)
  {
    var n := |qubits|;
    var g := QftGates(qubits)[p];
    PhaseCountsLinear(qubits, n);
    if p < RoundStart(n, n) {
      PhaseGates(qubits, n);
      assert PhaseGate(qubits, g);
      if g.CP? {
        var i :| 0 <= i < n - g.k && g.tgt == qubits[i] && g.ctrl == qubits[i + g.k];
        assert qubits[i] != qubits[i + g.k];
        assert Qubits(g) == [qubits[i + g.k], qubits[i]];
      }
    } else {
      var t := p - RoundStart(n, n);
      assert g == Swap(qubits[t], qubits[n - 1 - t]);
    }
  }

  /** Every new gate names only qubits from the list, is well formed in any
      circuit holding them, and can be inverted. */
  lemma QftWellFormed(qubits: seq<nat>, numQubits: nat, numClbits: nat)
    requires Below(qubits, numQubits) && Distinct(qubits)
    ensures forall p, x :: 0 <= p < |QftGates(qubits)| && x in Qubits(QftGates(qubits)[p]) ==> x in qubits
    ensures AllWellFormed(QftGates(qubits), numQubits, numClbits)
    ensures Reversible(QftGates(qubits))
  {
    forall p | 0 <= p < |QftGates(qubits)|
      ensures (forall x :: x in Qubits(QftGates(qubits)[p]) ==> x in qubits)
      ensures WellFormed(QftGates(qubits)[p], numQubits, numClbits)
    {
      QftGateWellFormed(qubits, p, numQubits, numClbits);
    }
  }

  /** Edge cases: no qubits, no gates; one qubit, a single Hadamard. */
  lemma QftSmall(a: nat)
    ensures QftGates([]) == []
    ensures QftGates([a]) == [H(a)]
  {
    assert PhaseSection([a], 1) == Round([a], 0);
  }

  /** `create_qft_circuit(3)` is not empty: it holds 3 + 3 + 1 gates. */
  lemma QftThree()
    ensures |QftGates(Range(0, 3))| == 7
  {
    QftCounts(Range(0, 3));
  }

  /** The QFT holds no controlled application of an opaque unitary. */
  lemma QftNoControlled(qubits: seq<nat>)
    ensures Count(QftGates(qubits), KindCU) == 0
  {
    var n := |qubits|;
    PhaseGates(qubits, n);
    PhaseCounts(qubits, n);
    var gs := QftGates(qubits);
    forall p | 0 <= p < |gs| ensures KindOf(gs[p]) != KindCU {
      if p >= RoundStart(n, n) {
        assert gs[p] == SwapSection(qubits)[p - RoundStart(n, n)];
      }
    }
    CountNone(gs, KindCU);
  }

  /** One position of the inverse QFT: the adjoint of the mirrored QFT gate,
      on qubits below `bound`, with a negated angle if it is a controlled phase. */
  lemma InverseQftAt(qubits: seq<nat>, bound: nat, p: nat)
    requires Below(qubits, bound) && Distinct(qubits)
    requires p < |QftGates(qubits)|
    ensures InverseGates(QftGates(qubits))[p] == Adjoint(QftGates(qubits)[|QftGates(qubits)| - 1 - p])
    ensures Below(Qubits(InverseGates(QftGates(qubits))[p]), bound)
    ensures InverseGates(QftGates(qubits))[p].CP? ==> InverseGates(QftGates(qubits))[p].adjoint
  {
    var qft := QftGates(qubits);
    var original := qft[|qft| - 1 - p];
    QftGateWellFormed(qubits, |qft| - 1 - p, bound, 0);
    AdjointShape(original);
    if original.CP? {
      QftRotations(qubits);
      assert CpFrom(qubits, original);
    }
  }

  /** The inverse of `apply_qft` over distinct qubits below `bound`: position p
      holds the adjoint of position n-1-p, every controlled phase has its angle
      negated, and every gate stays on qubits below `bound`. */
  lemma InverseQftShape(qubits: seq<nat>, bound: nat)
    requires Below(qubits, bound) && Distinct(qubits)
    ensures forall p :: 0 <= p < |InverseGates(QftGates(qubits))| ==>
              && InverseGates(QftGates(qubits))[p] == Adjoint(QftGates(qubits)[|QftGates(qubits)| - 1 - p])
              && Below(Qubits(InverseGates(QftGates(qubits))[p]), bound)
              && (InverseGates(QftGates(qubits))[p].CP? ==> InverseGates(QftGates(qubits))[p].adjoint)
  {
    forall p | 0 <= p < |InverseGates(QftGates(qubits))|
      ensures InverseGates(QftGates(qubits))[p] == Adjoint(QftGates(qubits)[|QftGates(qubits)| - 1 - p])
      ensures Below(Qubits(InverseGates(QftGates(qubits))[p]), bound)
      ensures InverseGates(QftGates(qubits))[p].CP? ==> InverseGates(QftGates(qubits))[p].adjoint
    {
      InverseQftAt(qubits, bound, p);
    }
  }
}

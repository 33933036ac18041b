/** The Quantum Phase Estimation assembler `qpe_circuit` of src/qpe_module.py. */
module Qpe {
  import opened Circuits
  import opened Powers
  import opened Qft

  /** `times` copies of one gate. */
  function Repeat(g: Gate, times: nat): (r: seq<Gate>)
    ensures |r| == times
  {
    seq(times, _ => g)
  }

  /** The repeated-application ladder for counting qubits 0, ..., m-1: counting
      qubit i gets the controlled unitary 2^i times, all of qubit i's copies
      before qubit i+1's. */
  function Ladder(u: Unitary, targets: seq<nat>, m: nat): (r: seq<Gate>)
    ensures forall p :: 0 <= p < |r| ==>
              r[p].CU? && r[p].u == u && !r[p].adjoint && r[p].ctrl < m && r[p].targets == targets
  {
    if m == 0 then [] else Ladder(u, targets, m - 1) + Repeat(CU(u, false, m - 1, targets), Pow2(m - 1))
  }

  /** The whole gate list `qpe_circuit` builds, in order: Hadamards on the
      counting qubits, the eigenstate placed on the upper qubits, the ladder,
      the inverse QFT on the counting qubits, one measurement per counting qubit. */
  function QpeGates(u: Unitary, eigen: seq<Gate>, eigenQubits: nat, nCount: nat): (r: seq<Gate>)
    requires AllBelow(eigen, eigenQubits)
    ensures |r| == nCount + |eigen| + (Pow2(nCount) - 1) + |QftGates(Range(0, nCount))| + nCount
  {
    var total := nCount + eigenQubits;
    LadderLength(u, Range(nCount, total), nCount);
    HLayer(Range(0, nCount))
    + RemapAll(eigen, Range(nCount, total))
    + Ladder(u, Range(nCount, total), nCount)
    + InverseGates(QftGates(Range(0, nCount)))
    + MeasureLayer(Range(0, nCount), Range(0, nCount))
  }

  lemma RepeatStep(prefix: seq<Gate>, g: Gate, times: nat)
    ensures prefix + Repeat(g, times + 1) == prefix + Repeat(g, times) + [g]
  {
    assert Repeat(g, times + 1) == Repeat(g, times) + [g];
  }

  /** Reassembles QpeGates from the circuit's gate list after each stage of
      `qpe_circuit`. Each requires has exactly the shape of the postconditions
      of the stage that produced it (the leading `[] +` is the empty circuit),
      so the caller discharges them without further reasoning. */
  lemma QpeGatesParts(u: Unitary, eigen: seq<Gate>, eigenQubits: nat, nCount: nat,
                      gates: seq<Gate>, start: seq<Gate>, beforeInverse: seq<Gate>)
    requires AllBelow(eigen, eigenQubits)
    requires start == [] + HLayer(Range(0, nCount)) + RemapAll(eigen, Range(nCount, nCount + eigenQubits))
    requires beforeInverse == start + Ladder(u, Range(nCount, nCount + eigenQubits), nCount)
    requires Reversible(QftGates(Range(0, nCount)))
    requires gates == beforeInverse + InverseGates(QftGates(Range(0, nCount))) + MeasureLayer(Range(0, nCount), Range(0, nCount))
    ensures gates == QpeGates(u, eigen, eigenQubits, nCount)
  {
    assert [] + HLayer(Range(0, nCount)) == HLayer(Range(0, nCount));
  }

  /** The controlled-unitary ladder of `qpe_circuit`: for each counting qubit
      i in turn, the controlled form of `u` with control i and the eigenstate
      qubits as targets, appended 2^i times. */
  method AppendLadder(c: Circuit, u: Unitary, nCount: nat)
    requires c.Valid() && nCount <= c.numQubits
    requires nCount > 0 ==> nCount + u.width == c.numQubits
    modifies c
    ensures c.Valid()
    ensures c.gates == old(c.gates) + Ladder(u, Range(nCount, c.numQubits), nCount)
  {
    var total := c.numQubits;
    ghost var start := c.gates;
    ghost var targets := Range(nCount, total);
    for i := 0 to nCount
      invariant c.Valid()
      invariant c.gates == start + Ladder(u, targets, i)
    {
      var repetitions := Pow2(i);
      ghost var cu := CU(u, false, i, targets);
      for rep := 0 to repetitions
        invariant c.Valid()
        invariant c.gates == start + (Ladder(u, targets, i) + Repeat(cu, rep))
      {
        var qs := [i] + Range(nCount, total);
        assert qs[1..] == targets;
        c.ComposeControlled(u, qs);
        RepeatStep(Ladder(u, targets, i), cu, rep);
        AppendAssoc(start, Ladder(u, targets, i) + Repeat(cu, rep), [cu]);
      }
      AppendAssoc(start, Ladder(u, targets, i), Repeat(cu, repetitions));
    }
  }

  /** The inverse-QFT step of `qpe_circuit`: a QFT built by `apply_qft` on a
      fresh n_count-qubit circuit, inverted, and composed onto qubits 0, ..., n_count-1. */
  method AppendInverseQft(c: Circuit, nCount: nat)
    requires c.Valid() && nCount <= c.numQubits
    modifies c
    ensures c.Valid() && Reversible(QftGates(Range(0, nCount)))
    ensures c.gates == old(c.gates) + InverseGates(QftGates(Range(0, nCount)))
  {
    var qft := new Circuit(nCount, 0);
    var _ := ApplyQft(qft, Range(0, nCount));
    assert qft.gates == QftGates(Range(0, nCount));
    var inverseQft := qft.Inverse();
    c.Compose(inverseQft, Range(0, nCount));
    RemapAllIdentity(inverseQft.gates, nCount);
  }

  /** `qpe_circuit(unitary, eigenstate, n_count)`: a fresh circuit with
      n_count + eigenstate.num_qubits qubits and n_count classical bits holding QpeGates. */
  method QpeCircuit(u: Unitary, eigenstate: Circuit, nCount: nat) returns (c: Circuit)
    requires eigenstate.Valid()
    requires nCount > 0 ==> u.width == eigenstate.numQubits
    requires eigenstate.numClbits <= nCount
    ensures fresh(c) && c.Valid()
    ensures c.numQubits == nCount + eigenstate.numQubits && c.numClbits == nCount
    ensures c.gates == QpeGates(u, eigenstate.gates, eigenstate.numQubits, nCount)
  {
    var eigenQubits := eigenstate.numQubits;
    var total := nCount + eigenQubits;
    var counting, upper := Range(0, nCount), Range(nCount, total);
    RangeFacts(0, nCount, total);
    RangeFacts(nCount, total, total);
    c := new Circuit(total, nCount);
    c.Hadamard(counting);
    c.Compose(eigenstate, upper);
    ghost var start := c.gates;
    AppendLadder(c, u, nCount);
    ghost var beforeInverse := c.gates;
    AppendInverseQft(c, nCount);
    RangeFacts(0, nCount, nCount);
    c.MeasureInto(counting, counting);
    QpeGatesParts(u, eigenstate.gates, eigenQubits, nCount, c.gates, start, beforeInverse);
  }

  /** The ladder over m counting qubits holds 2^m - 1 gates, every one a controlled application. */
  lemma {:induction false} LadderLength(u: Unitary, targets: seq<nat>, m: nat)
    ensures |Ladder(u, targets, m)| == Pow2(m) - 1
    ensures Count(Ladder(u, targets, m), KindCU) == Pow2(m) - 1
  {
    if m > 0 {
      LadderLength(u, targets, m - 1);
      var copies := Repeat(CU(u, false, m - 1, targets), Pow2(m - 1));
      CountAppend(Ladder(u, targets, m - 1), copies, KindCU);
      CountUniform(copies, KindCU, KindH);
    }
  }

  /** Counting qubit i's copies sit at positions 2^i - 1, ..., 2^(i+1) - 2 of
      the ladder: 2^i copies, control i, after those of every lower counting qubit. */
  lemma {:induction false} LadderAt(u: Unitary, targets: seq<nat>, m: nat, i: nat, r: nat)
    requires i < m && r < Pow2(i)
    ensures Pow2(i) - 1 + r < |Ladder(u, targets, m)|
    ensures Ladder(u, targets, m)[Pow2(i) - 1 + r] == CU(u, false, i, targets)
  {
    LadderLength(u, targets, m - 1);
    if i < m - 1 {
      LadderAt(u, targets, m - 1, i, r);
    }
  }

  /** Where the inverse QFT starts inside QpeGates. */
  function InverseQftStart(eigen: seq<Gate>, nCount: nat): nat {
    nCount + |eigen| + Pow2(nCount) - 1
  }

  /** The segments of QpeGates and their lengths. */
  lemma QpeSplit(u: Unitary, eigen: seq<Gate>, eigenQubits: nat, nCount: nat)
    requires AllBelow(eigen, eigenQubits)
    ensures Reversible(QftGates(Range(0, nCount)))
    ensures
      var qft := QftGates(Range(0, nCount));
      QpeGates(u, eigen, eigenQubits, nCount)
      == HLayer(Range(0, nCount)) + RemapAll(eigen, Range(nCount, nCount + eigenQubits))
         + Ladder(u, Range(nCount, nCount + eigenQubits), nCount)
         + InverseGates(qft) + MeasureLayer(Range(0, nCount), Range(0, nCount))
    ensures |QpeGates(u, eigen, eigenQubits, nCount)|
         == InverseQftStart(eigen, nCount) + |QftGates(Range(0, nCount))| + nCount
  {
    LadderLength(u, Range(nCount, nCount + eigenQubits), nCount);
  }

  /** The circuit opens with one Hadamard per counting qubit, in index order. */
  lemma QpeHadamardsFirst(u: Unitary, eigen: seq<Gate>, eigenQubits: nat, nCount: nat)
    requires AllBelow(eigen, eigenQubits)
    ensures nCount <= |QpeGates(u, eigen, eigenQubits, nCount)|
    ensures forall k :: 0 <= k < nCount ==> QpeGates(u, eigen, eigenQubits, nCount)[k] == H(k)
  {
    QpeSplit(u, eigen, eigenQubits, nCount);
  }

  /** The eigenstate's gates follow, in their own order, moved up by n_count so that
      they act on qubits n_count, ..., n_count + eigenQubits - 1 and never on a counting qubit. */
  lemma QpeEigenstatePlaced(u: Unitary, eigen: seq<Gate>, eigenQubits: nat, nCount: nat)
    requires AllBelow(eigen, eigenQubits)
    ensures nCount + |eigen| <= |QpeGates(u, eigen, eigenQubits, nCount)|
    ensures forall q :: nCount <= q < nCount + |eigen| ==>
              && QpeGates(u, eigen, eigenQubits, nCount)[q] == Remap(eigen[q - nCount], Range(nCount, nCount + eigenQubits))
              && Within(Qubits(QpeGates(u, eigen, eigenQubits, nCount)[q]), nCount, nCount + eigenQubits)
  {
    QpeSplit(u, eigen, eigenQubits, nCount);
    var gs := QpeGates(u, eigen, eigenQubits, nCount);
    var m := Range(nCount, nCount + eigenQubits);
    forall q | nCount <= q < nCount + |eigen|
      ensures gs[q] == Remap(eigen[q - nCount], m)
      ensures Within(Qubits(gs[q]), nCount, nCount + eigenQubits)
    {
      var g := eigen[q - nCount];
      assert gs[q] == Remap(g, m);
      var qs := Qubits(g);
      forall i | 0 <= i < |qs| ensures nCount <= MapQubits(qs, m)[i] < nCount + eigenQubits {
        assert qs[i] < eigenQubits;
      }
    }
  }

  /** Counting qubit i gets the controlled unitary 2^i times, at positions
      n_count + |eigen| + 2^i - 1 + r for r < 2^i, with control i and the
      eigenstate qubits as targets; all of qubit i's copies come before qubit i+1's. */
  lemma QpeLadderPlaced(u: Unitary, eigen: seq<Gate>, eigenQubits: nat, nCount: nat, i: nat, r: nat)
    requires AllBelow(eigen, eigenQubits)
    requires i < nCount && r < Pow2(i)
    ensures InverseQftStart(eigen, nCount) <= |QpeGates(u, eigen, eigenQubits, nCount)|
    ensures nCount + |eigen| + Pow2(i) - 1 + r < InverseQftStart(eigen, nCount)
    ensures QpeGates(u, eigen, eigenQubits, nCount)[nCount + |eigen| + Pow2(i) - 1 + r]
         == CU(u, false, i, Range(nCount, nCount + eigenQubits))
  {
    QpeSplit(u, eigen, eigenQubits, nCount);
    LadderAt(u, Range(nCount, nCount + eigenQubits), nCount, i, r);
  }

  /** 2^n_count - 1 controlled applications in all, besides any the eigenstate itself holds. */
  lemma QpeControlledCount(u: Unitary, eigen: seq<Gate>, eigenQubits: nat, nCount: nat)
    requires AllBelow(eigen, eigenQubits)
    ensures Count(QpeGates(u, eigen, eigenQubits, nCount), KindCU) == Count(eigen, KindCU) + Pow2(nCount) - 1
  {
    QpeSplit(u, eigen, eigenQubits, nCount);
    var m := Range(nCount, nCount + eigenQubits);
    var hs := HLayer(Range(0, nCount));
    var placed := RemapAll(eigen, m);
    var ladder := Ladder(u, m, nCount);
    var qft := QftGates(Range(0, nCount));
    var inv := InverseGates(qft);
    var ms := MeasureLayer(Range(0, nCount), Range(0, nCount));
    CountAppend(hs + placed + ladder + inv, ms, KindCU);
    CountAppend(hs + placed + ladder, inv, KindCU);
    CountAppend(hs + placed, ladder, KindCU);
    CountAppend(hs, placed, KindCU);
    CountUniform(hs, KindH, KindCU);
    CountUniform(ms, KindMeasure, KindCU);
    LadderLength(u, m, nCount);
    InverseCount(qft, KindCU);
    QftNoControlled(Range(0, nCount));
    RemapCount(eigen, m, KindCU);
  }

  /** The inverse-QFT segment is the QFT's gate list read backwards with each
      gate replaced by its adjoint: H and SWAP unchanged, every controlled
      phase with its angle negated. It acts on counting qubits only. */
  lemma QpeInverseQftPlaced(u: Unitary, eigen: seq<Gate>, eigenQubits: nat, nCount: nat)
    requires AllBelow(eigen, eigenQubits)
    ensures Reversible(QftGates(Range(0, nCount)))
    ensures InverseQftStart(eigen, nCount) + |QftGates(Range(0, nCount))| <= |QpeGates(u, eigen, eigenQubits, nCount)|
    ensures forall q :: InverseQftStart(eigen, nCount) <= q < InverseQftStart(eigen, nCount) + |QftGates(Range(0, nCount))| ==>
              && QpeGates(u, eigen, eigenQubits, nCount)[q]
                 == Adjoint(QftGates(Range(0, nCount))[InverseQftStart(eigen, nCount) + |QftGates(Range(0, nCount))| - 1 - q])
              && Below(Qubits(QpeGates(u, eigen, eigenQubits, nCount)[q]), nCount)
              && (QpeGates(u, eigen, eigenQubits, nCount)[q].CP? ==> QpeGates(u, eigen, eigenQubits, nCount)[q].adjoint)
  {
    QpeSplit(u, eigen, eigenQubits, nCount);
    var gs := QpeGates(u, eigen, eigenQubits, nCount);
    var inv := InverseGates(QftGates(Range(0, nCount)));
    var start := InverseQftStart(eigen, nCount);
    InverseQftShape(Range(0, nCount), nCount);
    forall q | start <= q < start + |inv| ensures gs[q] == inv[q - start] {
    }
  }

  /** The circuit closes with one measurement per counting qubit, qubit k into
      classical bit k, in index order. */
  lemma QpeMeasuresLast(u: Unitary, eigen: seq<Gate>, eigenQubits: nat, nCount: nat)
    requires AllBelow(eigen, eigenQubits)
    ensures
      var gs := QpeGates(u, eigen, eigenQubits, nCount);
      && nCount <= |gs|
      && forall k :: 0 <= k < nCount ==> gs[|gs| - nCount + k] == Measure(k, k)
  {
    QpeSplit(u, eigen, eigenQubits, nCount);
  }
}

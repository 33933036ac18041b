/** The abstract quantum circuit: an append-only list of gate values over
    indexed qubits and classical bits. Angles are kept symbolic, the quantum
    semantics of the gates is not modelled. */
module Circuits {

  /** An operation the model treats as opaque: a named unitary acting on `width` qubits. */
  datatype Unitary = Unitary(name: string, width: nat)

  datatype Gate =
    | H(q: nat)
      /** controlled phase by angle pi / 2^k (by -pi / 2^k when `adjoint`) */
    | CP(k: nat, adjoint: bool, ctrl: nat, tgt: nat)
    | Swap(a: nat, b: nat)
      /** the opaque unitary `u`, controlled by `ctrl`, acting on `targets` */
    | CU(u: Unitary, adjoint: bool, ctrl: nat, targets: seq<nat>)
      /** the opaque unitary `u` itself, on the qubits `qs` */
    | Op(u: Unitary, adjoint: bool, qs: seq<nat>)
    | Measure(q: nat, c: nat)

  datatype Kind = KindH | KindCP | KindSwap | KindCU | KindOp | KindMeasure

  function KindOf(g: Gate): Kind {
    match g
    case H(_) => KindH
    case CP(_, _, _, _) => KindCP
    case Swap(_, _) => KindSwap
    case CU(_, _, _, _) => KindCU
    case Op(_, _, _) => KindOp
    case Measure(_, _) => KindMeasure
  }

  /** The qubit operands of a gate, in the order the gate takes them. */
  function Qubits(g: Gate): seq<nat> {
    match g
    case H(q) => [q]
    case CP(_, _, ctrl, tgt) => [ctrl, tgt]
    case Swap(a, b) => [a, b]
    case CU(_, _, ctrl, targets) => [ctrl] + targets
    case Op(_, _, qs) => qs
    case Measure(q, _) => [q]
  }

  function Clbits(g: Gate): seq<nat> {
    if g.Measure? then [g.c] else []
  }

  predicate Distinct(s: seq<nat>) {
    forall i, j :: 0 <= i < j < |s| ==> s[i] != s[j]
  }

  predicate Below(s: seq<nat>, bound: nat) {
    forall i :: 0 <= i < |s| ==> s[i] < bound
  }

  predicate Within(s: seq<nat>, lo: nat, hi: nat) {
    forall i :: 0 <= i < |s| ==> lo <= s[i] < hi
  }

  /** What the circuit library checks before it appends a gate: operands in range, no qubit twice. */
  predicate WellFormed(g: Gate, numQubits: nat, numClbits: nat) {
    Below(Qubits(g), numQubits) && Distinct(Qubits(g)) && Below(Clbits(g), numClbits)
  }

  predicate AllWellFormed(gs: seq<Gate>, numQubits: nat, numClbits: nat) {
    forall p :: 0 <= p < |gs| ==> WellFormed(gs[p], numQubits, numClbits)
  }

  /** The integers lo, lo + 1, ..., hi - 1: Python's `range(lo, hi)`. */
  function Range(lo: nat, hi: nat): (r: seq<nat>)
    requires lo <= hi
    ensures |r| == hi - lo
  {
    seq(hi - lo, i requires 0 <= i < hi - lo => lo + i)
  }

  lemma RangeFacts(lo: nat, hi: nat, bound: nat)
    requires lo <= hi <= bound
    ensures Below(Range(lo, hi), bound) && Distinct(Range(lo, hi))
  {
  }

  /** Number of gates of kind `k`. */
  function Count(gs: seq<Gate>, k: Kind): (r: nat)
    ensures r <= |gs|
  {
    if gs == [] then 0 else (if KindOf(gs[0]) == k then 1 else 0) + Count(gs[1..], k)
  }

  lemma {:induction false} CountAppend(a: seq<Gate>, b: seq<Gate>, k: Kind)
    ensures Count(a + b, k) == Count(a, k) + Count(b, k)
  {
    if a != [] {
      assert (a + b)[1..] == a[1..] + b;
      CountAppend(a[1..], b, k);
    } else {
      assert a + b == b;
    }
  }

  /** A list all of whose gates have kind `k` holds |gs| of them and none of any other kind. */
  lemma {:induction false} CountUniform(gs: seq<Gate>, k: Kind, other: Kind)
    requires forall p :: 0 <= p < |gs| ==> KindOf(gs[p]) == k
    ensures Count(gs, k) == |gs|
    ensures other != k ==> Count(gs, other) == 0
  {
    if gs != [] {
      CountUniform(gs[1..], k, other);
    }
  }

  /** A list with no gate of kind `k` counts none. */
  lemma {:induction false} CountNone(gs: seq<Gate>, k: Kind)
    requires forall p :: 0 <= p < |gs| ==> KindOf(gs[p]) != k
    ensures Count(gs, k) == 0
  {
    if gs != [] {
      CountNone(gs[1..], k);
    }
  }

  /** Placing gates on other qubits keeps the number of each kind. */
  lemma {:induction false} RemapCount(gs: seq<Gate>, m: seq<nat>, k: Kind)
    requires AllBelow(gs, |m|)
    ensures Count(RemapAll(gs, m), k) == Count(gs, k)
  {
    if gs != [] {
      assert RemapAll(gs, m)[1..] == RemapAll(gs[1..], m);
      RemapCount(gs[1..], m, k);
    }
  }

  /** `h(qs)`: one Hadamard per listed qubit, in list order. */
  function HLayer(qs: seq<nat>): (r: seq<Gate>)
    ensures |r| == |qs|
  {
    seq(|qs|, i requires 0 <= i < |qs| => H(qs[i]))
  }

  /** `measure(qs, cs)`: qubit qs[i] into classical bit cs[i], in list order. */
  function MeasureLayer(qs: seq<nat>, cs: seq<nat>): (r: seq<Gate>)
    requires |qs| == |cs|
    ensures |r| == |qs|
  {
    seq(|qs|, i requires 0 <= i < |qs| => Measure(qs[i], cs[i]))
  }

  function MapQubits(qs: seq<nat>, m: seq<nat>): (r: seq<nat>)
    requires Below(qs, |m|)
    ensures |r| == |qs|
  {
    seq(|qs|, i requires 0 <= i < |qs| => m[qs[i]])
  }

  /** The gate placed through `compose(..., qubits=m)`: its qubit x becomes m[x]. */
  function Remap(g: Gate, m: seq<nat>): (r: Gate)
    requires Below(Qubits(g), |m|)
    ensures KindOf(r) == KindOf(g)
    ensures Qubits(r) == MapQubits(Qubits(g), m)
    ensures Clbits(r) == Clbits(g)
  {
    match g
    case H(q) => assert Qubits(g)[0] == q; H(m[q])
    case CP(k, adj, ctrl, tgt) =>
      assert Qubits(g)[0] == ctrl && Qubits(g)[1] == tgt;
      CP(k, adj, m[ctrl], m[tgt])
    case Swap(a, b) => assert Qubits(g)[0] == a && Qubits(g)[1] == b; Swap(m[a], m[b])
    case CU(u, adj, ctrl, targets) =>
      assert Qubits(g)[0] == ctrl;
      assert forall i :: 0 <= i < |targets| ==> targets[i] == Qubits(g)[i + 1];
      CU(u, adj, m[ctrl], MapQubits(targets, m))
    case Op(u, adj, qs) => Op(u, adj, MapQubits(qs, m))
    case Measure(q, c) => assert Qubits(g)[0] == q; Measure(m[q], c)
  }

  predicate AllBelow(gs: seq<Gate>, bound: nat) {
    forall p :: 0 <= p < |gs| ==> Below(Qubits(gs[p]), bound)
  }

  /** The gates of a sub-circuit placed through `compose(other, qubits=m)`. */
  function RemapAll(gs: seq<Gate>, m: seq<nat>): (r: seq<Gate>)
    requires AllBelow(gs, |m|)
    ensures |r| == |gs|
  {
    seq(|gs|, p requires 0 <= p < |gs| => Remap(gs[p], m))
  }

  /** Placing a gate through `qubits=range(n)` leaves it as it is. */
  lemma RemapIdentity(g: Gate, n: nat)
    requires Below(Qubits(g), n)
    ensures Remap(g, Range(0, n)) == g
  {
    assert MapQubits(Qubits(g), Range(0, n)) == Qubits(g);
    if g.CU? {
      assert Qubits(g)[1..] == g.targets;
      assert MapQubits(g.targets, Range(0, n)) == g.targets;
    } else if g.Op? {
      assert MapQubits(g.qs, Range(0, n)) == g.qs;
    }
  }

  lemma RemapAllIdentity(gs: seq<Gate>, n: nat)
    requires AllBelow(gs, n)
    ensures RemapAll(gs, Range(0, n)) == gs
  {
    forall p | 0 <= p < |gs| ensures RemapAll(gs, Range(0, n))[p] == gs[p] {
      RemapIdentity(gs[p], n);
    }
  }

  /** A one-to-one placement into a circuit's qubits keeps a gate well formed. */
  lemma RemapWellFormed(g: Gate, m: seq<nat>, numQubits: nat, numClbits: nat)
    requires WellFormed(g, |m|, numClbits)
    requires Below(m, numQubits) && Distinct(m)
    ensures WellFormed(Remap(g, m), numQubits, numClbits)
  {
    var qs := Qubits(g);
    var mapped := MapQubits(qs, m);
    forall i, j | 0 <= i < j < |mapped| ensures mapped[i] != mapped[j] {
      assert qs[i] != qs[j];
    }
  }

  /** Qiskit's `inst.inverse()`: H and SWAP are their own inverse, a phase
      rotation changes sign, an opaque unitary becomes its adjoint. */
  function Adjoint(g: Gate): (r: Gate)
    requires !g.Measure?
    ensures !r.Measure?
  {
    match g
    case H(q) => H(q)
    case CP(k, adj, ctrl, tgt) => CP(k, !adj, ctrl, tgt)
    case Swap(a, b) => Swap(a, b)
    case CU(u, adj, ctrl, targets) => CU(u, !adj, ctrl, targets)
    case Op(u, adj, qs) => Op(u, !adj, qs)
  }

  /** No measurement: the gates have an inverse. */
  predicate Reversible(gs: seq<Gate>) {
    forall p :: 0 <= p < |gs| ==> !gs[p].Measure?
  }

  /** Qiskit's `QuantumCircuit.inverse()` on the gate list: reverse order, adjoint of each gate. */
  function InverseGates(gs: seq<Gate>): (r: seq<Gate>)
    requires Reversible(gs)
    ensures |r| == |gs|
  {
    seq(|gs|, p requires 0 <= p < |gs| => Adjoint(gs[|gs| - 1 - p]))
  }

  /** The inverse holds no measurement either. */
  lemma InverseReversible(gs: seq<Gate>)
    requires Reversible(gs)
    ensures Reversible(InverseGates(gs))
  {
    forall p | 0 <= p < |gs| ensures !InverseGates(gs)[p].Measure? {
      assert InverseGates(gs)[p] == Adjoint(gs[|gs| - 1 - p]);
    }
  }

  /** Peeling the first gate off: it becomes the last gate of the inverse. */
  lemma InverseCons(gs: seq<Gate>)
    requires Reversible(gs) && gs != []
    ensures InverseGates(gs) == InverseGates(gs[1..]) + [Adjoint(gs[0])]
  {
    var rest := gs[1..];
    forall p | 0 <= p < |gs| - 1 ensures InverseGates(gs)[p] == InverseGates(rest)[p] {
      assert gs[|gs| - 1 - p] == rest[|rest| - 1 - p];
    }
  }

  lemma AdjointShape(g: Gate)
    requires !g.Measure?
    ensures KindOf(Adjoint(g)) == KindOf(g) && Qubits(Adjoint(g)) == Qubits(g)
  {
  }

  lemma AdjointInvolution(g: Gate)
    requires !g.Measure?
    ensures Adjoint(Adjoint(g)) == g
  {
  }

  /** Inverting twice gives back the original gate list. */
  lemma InverseInvolution(gs: seq<Gate>)
    requires Reversible(gs)
    ensures Reversible(InverseGates(gs))
    ensures InverseGates(InverseGates(gs)) == gs
  {
    InverseReversible(gs);
    forall p | 0 <= p < |gs| ensures InverseGates(InverseGates(gs))[p] == gs[p] {
      AdjointInvolution(gs[p]);
    }
  }

  /** Inversion keeps the number of gates of each kind. */
  lemma {:induction false} InverseCount(gs: seq<Gate>, k: Kind)
    requires Reversible(gs)
    ensures Count(InverseGates(gs), k) == Count(gs, k)
  {
    if gs != [] {
      InverseCons(gs);
      InverseCount(gs[1..], k);
      CountAppend(InverseGates(gs[1..]), [Adjoint(gs[0])], k);
      AdjointShape(gs[0]);
    }
  }

  /** Inversion keeps every gate well formed. */
  lemma InverseWellFormed(gs: seq<Gate>, numQubits: nat, numClbits: nat)
    requires Reversible(gs) && AllWellFormed(gs, numQubits, numClbits)
    ensures AllWellFormed(InverseGates(gs), numQubits, numClbits)
  {
    forall p | 0 <= p < |gs| ensures WellFormed(InverseGates(gs)[p], numQubits, numClbits) {
      AdjointShape(gs[|gs| - 1 - p]);
    }
  }

  /** Qiskit's `QuantumCircuit`: a fixed number of qubits and classical bits
      and the gates appended so far, each checked on the way in. */
  class Circuit {
    const numQubits: nat
    const numClbits: nat
    var gates: seq<Gate>

    ghost predicate Valid()
      reads this
    {
      AllWellFormed(gates, numQubits, numClbits)
    }

    /** `QuantumCircuit(qubits, clbits)`: an empty circuit. */
    constructor (qubits: nat, clbits: nat)
      ensures numQubits == qubits && numClbits == clbits
      ensures gates == [] && Valid()
    {
      numQubits, numClbits := qubits, clbits;
      gates := [];
    }

    /** `h(qs)`. */
    method Hadamard(qs: seq<nat>)
      requires Valid() && Below(qs, numQubits)
      modifies this
      ensures Valid() && gates == old(gates) + HLayer(qs)
    {
      gates := gates + HLayer(qs);
    }

    /** `cp(pi / 2^k, ctrl, tgt)`. */
    method ControlledPhase(k: nat, ctrl: nat, tgt: nat)
      requires Valid() && ctrl < numQubits && tgt < numQubits && ctrl != tgt
      modifies this
      ensures Valid() && gates == old(gates) + [CP(k, false, ctrl, tgt)]
    {
      gates := gates + [CP(k, false, ctrl, tgt)];
    }

    /** `swap(a, b)`. */
    method SwapQubits(a: nat, b: nat)
      requires Valid() && a < numQubits && b < numQubits && a != b
      modifies this
      ensures Valid() && gates == old(gates) + [Swap(a, b)]
    {
      gates := gates + [Swap(a, b)];
    }

    /** `compose(u.control(), qubits=qs, inplace=True)`: the controlled form of
        `u` with control qs[0] and targets qs[1..]. */
    method ComposeControlled(u: Unitary, qs: seq<nat>)
      requires Valid() && |qs| == u.width + 1 && Below(qs, numQubits) && Distinct(qs)
      modifies this
      ensures Valid() && gates == old(gates) + [CU(u, false, qs[0], qs[1..])]
    {
      assert Qubits(CU(u, false, qs[0], qs[1..])) == qs;
      gates := gates + [CU(u, false, qs[0], qs[1..])];
    }

    /** `compose(other, qubits=m, inplace=True)`: the other circuit's gates,
        qubit x placed on m[x], classical bits kept. */
    method Compose(other: Circuit, m: seq<nat>)
      requires Valid() && other.Valid()
      requires |m| == other.numQubits && Below(m, numQubits) && Distinct(m)
      requires other.numClbits <= numClbits
      modifies this
      ensures Valid() && gates == old(gates) + RemapAll(old(other.gates), m)
    {
      var added := RemapAll(other.gates, m);
      forall p | 0 <= p < |added| ensures WellFormed(added[p], numQubits, numClbits) {
        RemapWellFormed(other.gates[p], m, numQubits, numClbits);
      }
      gates := gates + added;
    }

    /** `measure(qs, cs)`. */
    method MeasureInto(qs: seq<nat>, cs: seq<nat>)
      requires Valid() && |qs| == |cs| && Below(qs, numQubits) && Below(cs, numClbits)
      modifies this
      ensures Valid() && gates == old(gates) + MeasureLayer(qs, cs)
    {
      gates := gates + MeasureLayer(qs, cs);
    }

    /** `inverse()`: a new circuit of the same size holding the inverted gate list. */
    method Inverse() returns (r: Circuit)
      requires Valid() && Reversible(gates)
      ensures fresh(r) && r.Valid()
      ensures r.numQubits == numQubits && r.numClbits == numClbits
      ensures r.gates == InverseGates(gates)
    {
      InverseWellFormed(gates, numQubits, numClbits);
      r := new Circuit(numQubits, numClbits);
      r.gates := InverseGates(gates);
    }
  }
}

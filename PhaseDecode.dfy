/** The reporting part of `simulate_qpe` in src/qpe_module.py: outcomes in
    order of decreasing frequency, each bitstring turned into a phase estimate
    d / 2^m by reversing it and reading it as a binary numeral. */
module PhaseDecode {
  import opened Wrappers
  import opened Powers

  /** `s[::-1]`. */
  function Reverse(s: string): (r: string)
    ensures |r| == |s|
  {
    if s == [] then [] else Reverse(s[1..]) + [s[0]]
  }

  lemma {:induction false} ReverseAt(s: string, k: nat)
    requires k < |s|
    ensures Reverse(s)[k] == s[|s| - 1 - k]
  {
    if k < |s| - 1 {
      ReverseAt(s[1..], k);
    }
  }

  /** Reversal is an involution. */
  lemma ReverseInvolution(s: string)
    ensures Reverse(Reverse(s)) == s
  {
    forall k | 0 <= k < |s| ensures Reverse(Reverse(s))[k] == s[k] {
      ReverseAt(Reverse(s), k);
      ReverseAt(s, |s| - 1 - k);
    }
  }

  predicate IsBinary(s: string) {
    forall i :: 0 <= i < |s| ==> s[i] == '0' || s[i] == '1'
  }

  function Bit(c: char): nat {
    if c == '1' then 1 else 0
  }

  /** The value of a binary numeral written most significant digit first. */
  function MsbValue(s: string): nat {
    if s == [] then 0 else 2 * MsbValue(s[..|s| - 1]) + Bit(s[|s| - 1])
  }

  /** The value of a binary numeral written least significant digit first. */
  function LsbValue(s: string): nat {
    if s == [] then 0 else Bit(s[0]) + 2 * LsbValue(s[1..])
  }

  /** `int(s, 2)` on strings of binary digits; None where Python raises ValueError. */
  function ParseBinary(s: string): (r: Option<nat>)
    ensures r.Some? <==> s != [] && IsBinary(s)
    ensures r.Some? ==> r.value < Pow2(|s|)
  {
    MsbBound(s);
    if s != [] && IsBinary(s) then Some(MsbValue(s)) else None
  }

  /** An estimated phase numerator / denominator, kept as a pair of integers. */
  datatype Phase = Phase(numerator: nat, denominator: nat)

  /** The phase reported for one outcome of a circuit with `numClbits` classical
      bits: the reversed outcome read as binary, over 2^numClbits. */
  function DecodePhase(outcome: string, numClbits: nat): (r: Option<Phase>)
    ensures r.Some? ==> r.value.denominator == Pow2(numClbits) && r.value.numerator < Pow2(|outcome|)
  {
    match ParseBinary(Reverse(outcome))
    case None => None
    case Some(d) => Some(Phase(d, Pow2(numClbits)))
  }

  /** An m-digit numeral is below 2^m. */
  lemma {:induction false} MsbBound(s: string)
    ensures MsbValue(s) < Pow2(|s|)
  {
    if s != [] {
      MsbBound(s[..|s| - 1]);
    }
  }

  /** Reading the reversed string most significant digit first is reading the
      original least significant digit first. */
  lemma {:induction false} MsbOfReverse(s: string)
    ensures MsbValue(Reverse(s)) == LsbValue(s)
  {
    if s != [] {
      var r := Reverse(s);
      assert r[..|r| - 1] == Reverse(s[1..]);
      MsbOfReverse(s[1..]);
    }
  }

  lemma ReverseBinary(s: string)
    ensures IsBinary(Reverse(s)) <==> IsBinary(s)
  {
    forall k | 0 <= k < |s| ensures Reverse(s)[k] == s[|s| - 1 - k] {
      ReverseAt(s, k);
    }
    if IsBinary(s) {
      forall k | 0 <= k < |s| ensures Reverse(s)[k] == '0' || Reverse(s)[k] == '1' {
        assert s[|s| - 1 - k] == '0' || s[|s| - 1 - k] == '1';
      }
    } else {
      var k :| 0 <= k < |s| && s[k] != '0' && s[k] != '1';
      assert Reverse(s)[|s| - 1 - k] == s[k];
    }
  }

  /** Decoding fails exactly on an empty outcome or one with a non-binary
      character; otherwise it yields the outcome read least significant digit
      first, over 2^numClbits. */
  lemma DecodeMeaning(outcome: string, numClbits: nat)
    ensures DecodePhase(outcome, numClbits).None? <==> outcome == [] || !IsBinary(outcome)
    ensures outcome != [] && IsBinary(outcome) ==>
              DecodePhase(outcome, numClbits) == Some(Phase(LsbValue(outcome), Pow2(numClbits)))
  {
    ReverseBinary(outcome);
    MsbOfReverse(outcome);
  }

  /** For an outcome of at most numClbits digits the numerator is below the
      denominator 2^numClbits: the estimated phase lies in [0, 1). */
  lemma DecodeInRange(outcome: string, numClbits: nat)
    requires outcome != [] && IsBinary(outcome) && |outcome| <= numClbits
    ensures DecodePhase(outcome, numClbits).Some?
    ensures DecodePhase(outcome, numClbits).value.denominator == Pow2(numClbits)
    ensures DecodePhase(outcome, numClbits).value.numerator < Pow2(numClbits)
  {
    ReverseBinary(outcome);
    MsbBound(Reverse(outcome));
    Pow2Monotone(|outcome|, numClbits);
  }

  lemma {:induction false} Pow2Monotone(a: nat, b: nat)
    requires a <= b
    ensures Pow2(a) <= Pow2(b)
  {
    if a < b {
      Pow2Monotone(a, b - 1);
    }
  }

  /** The `width`-digit binary numeral of d, most significant digit first. */
  function Binary(d: nat, width: nat): (r: string)
    ensures |r| == width && IsBinary(r)
  {
    if width == 0 then [] else Binary(d / 2, width - 1) + [if d % 2 == 1 then '1' else '0']
  }

  lemma {:induction false} MsbOfBinary(d: nat, width: nat)
    requires d < Pow2(width)
    ensures MsbValue(Binary(d, width)) == d
  {
    if width > 0 {
      var s := Binary(d, width);
      assert s[..|s| - 1] == Binary(d / 2, width - 1);
      MsbOfBinary(d / 2, width - 1);
    }
  }

  /** Round trip: the outcome whose reversal is the m-digit numeral of d, for
      d < 2^m, decodes to exactly d / 2^m. */
  lemma DecodeRoundTrip(d: nat, m: nat)
    requires 0 < m && d < Pow2(m)
    ensures DecodePhase(Reverse(Binary(d, m)), m) == Some(Phase(d, Pow2(m)))
  {
    ReverseInvolution(Binary(d, m));
    MsbOfBinary(d, m);
  }

  /** One entry of the measurement outcome map: bitstring and frequency. */
  type Entry = (string, nat)

  /** Each entry's frequency is at least the next one's. */
  predicate NonIncreasing(s: seq<Entry>) {
    forall i :: 0 <= i < |s| - 1 ==> s[i].1 >= s[i + 1].1
  }

  /** Put an entry in front of every entry with a frequency no greater than its own. */
  function InsertByFrequency(e: Entry, s: seq<Entry>): (r: seq<Entry>)
    ensures |r| == |s| + 1
    ensures r[0] == e || (s != [] && r[0] == s[0])
  {
    if s == [] || s[0].1 <= e.1 then [e] + s else [s[0]] + InsertByFrequency(e, s[1..])
  }

  /** `sorted(counts.items(), key=lambda x: -x[1])`. */
  function ByFrequency(items: seq<Entry>): (r: seq<Entry>)
    ensures |r| == |items|
  {
    if items == [] then [] else InsertByFrequency(items[0], ByFrequency(items[1..]))
  }

  lemma {:induction false} InsertSorted(e: Entry, s: seq<Entry>)
    requires NonIncreasing(s)
    ensures NonIncreasing(InsertByFrequency(e, s))
    ensures multiset(InsertByFrequency(e, s)) == multiset(s) + multiset{e}
  {
    if s != [] && s[0].1 > e.1 {
      var rest := InsertByFrequency(e, s[1..]);
      InsertSorted(e, s[1..]);
      assert s == [s[0]] + s[1..];
      assert rest[0].1 <= s[0].1;
    }
  }

  /** The reporting order: non-increasing frequency, and the same entries as the map. */
  lemma {:induction false} ByFrequencySorted(items: seq<Entry>)
    ensures NonIncreasing(ByFrequency(items))
    ensures multiset(ByFrequency(items)) == multiset(items)
  {
    if items != [] {
      ByFrequencySorted(items[1..]);
      InsertSorted(items[0], ByFrequency(items[1..]));
      assert items == [items[0]] + items[1..];
    }
  }

  /** A list already in reporting order is left as it is. */
  lemma {:induction false} ByFrequencyKeepsOrdered(items: seq<Entry>)
    requires NonIncreasing(items)
    ensures ByFrequency(items) == items
  {
    if items != [] {
      ByFrequencyKeepsOrdered(items[1..]);
      assert items == [items[0]] + items[1..];
    }
  }

  /** Sorting the report a second time changes nothing. */
  lemma ByFrequencyIdempotent(items: seq<Entry>)
    ensures ByFrequency(ByFrequency(items)) == ByFrequency(items)
  {
    ByFrequencySorted(items);
    ByFrequencyKeepsOrdered(ByFrequency(items));
  }

  /** The entries with frequency f, in list order. */
  function WithFrequency(s: seq<Entry>, f: nat): (r: seq<Entry>)
    ensures forall k :: 0 <= k < |r| ==> r[k].1 == f
  {
    if s == [] then [] else (if s[0].1 == f then [s[0]] else []) + WithFrequency(s[1..], f)
  }

  lemma {:induction false} InsertWithFrequency(e: Entry, s: seq<Entry>, f: nat)
    ensures WithFrequency(InsertByFrequency(e, s), f) == (if e.1 == f then [e] else []) + WithFrequency(s, f)
  {
    if s != [] && s[0].1 > e.1 {
      InsertWithFrequency(e, s[1..], f);
      assert InsertByFrequency(e, s)[1..] == InsertByFrequency(e, s[1..]);
    } else {
      assert InsertByFrequency(e, s)[1..] == s;
    }
  }

  /** Stability: entries of equal frequency come out in the order they went in,
      as Python's `sorted` keeps them. */
  lemma {:induction false} ByFrequencyStable(items: seq<Entry>, f: nat)
    ensures WithFrequency(ByFrequency(items), f) == WithFrequency(items, f)
  {
    if items != [] {
      ByFrequencyStable(items[1..], f);
      InsertWithFrequency(items[0], ByFrequency(items[1..]), f);
    }
  }

  /** One reported line: the observed bitstring, its estimated phase, its frequency. */
  datatype ReportLine = ReportLine(outcome: string, phase: Phase, frequency: nat)

  /** The report loop of `simulate_qpe` over the outcome map `counts` that
      executing the circuit produced. Each line decodes one outcome, in order of
      non-increasing frequency; None stands for the ValueError that stops the loop
      on an outcome that is not a binary numeral. `returned` is the map that a
      successful call returns, unchanged; when `report` is None the source raises
      and returns nothing, and `returned` stands for no value of the source. */
  method SimulateQpe(counts: seq<Entry>, numClbits: nat) returns (report: Option<seq<ReportLine>>, returned: seq<Entry>)
    ensures returned == counts
    ensures report.None? <==> exists t :: 0 <= t < |counts| && DecodePhase(counts[t].0, numClbits).None?
    ensures report.Some? ==>
              && |report.value| == |counts|
              && multiset(seq(|report.value|, k requires 0 <= k < |report.value| => (report.value[k].outcome, report.value[k].frequency)))
                 == multiset(counts)
              && forall k :: 0 <= k < |report.value| ==>
                   && Some(report.value[k].phase) == DecodePhase(report.value[k].outcome, numClbits)
                   && (k + 1 < |report.value| ==> report.value[k].frequency >= report.value[k + 1].frequency)
  {
    var ordered := ByFrequency(counts);
    ByFrequencySorted(counts);
    var lines: seq<ReportLine> := [];
    var k := 0;
    while k < |ordered|
      invariant 0 <= k <= |ordered|
      invariant |lines| == k
      invariant forall t :: 0 <= t < k ==>
                  && DecodePhase(ordered[t].0, numClbits).Some?
                  && lines[t] == ReportLine(ordered[t].0, DecodePhase(ordered[t].0, numClbits).value, ordered[t].1)
    {
      var (outcome, frequency) := ordered[k];
      var reversedBin := Reverse(outcome);
      var decimalValue := ParseBinary(reversedBin);
      if decimalValue.None? {
        assert ordered[k] in multiset(counts);
        ghost var t :| 0 <= t < |counts| && counts[t] == ordered[k];
        return None, counts;
      }
      var estimatedPhase := Phase(decimalValue.value, Pow2(numClbits));
      lines := lines + [ReportLine(outcome, estimatedPhase, frequency)];
      k := k + 1;
    }
    forall t | 0 <= t < |counts| ensures DecodePhase(counts[t].0, numClbits).Some? {
      assert counts[t] in multiset(ordered);
    }
    var pairs := seq(|lines|, k requires 0 <= k < |lines| => (lines[k].outcome, lines[k].frequency));
    assert pairs == ordered;
    report, returned := Some(lines), counts;
  }
}

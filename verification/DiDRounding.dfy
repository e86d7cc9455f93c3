/** Rounding the numbers of a signal: every lift of admitted values is reported; a margin is, unless the threshold is
    huge. */
module DiDRounding {
  import opened Common
  import opened DiD
  import Laws = DiDLaws
  import R = Rounding

  // ------------------------------------------------------ admitted values

  predicate Below(x: real, bound: real) {
    -bound < x < bound
  }

  lemma {:induction false} AdmittedValues(w: Window, entries: seq<Entry>)
    ensures forall v :: v in ValuesIn(w, entries) ==> Below(v, MAGNITUDE_LIMIT)
  {
    if entries != [] {
      AdmittedValues(w, entries[..|entries| - 1]);
    }
  }

  lemma {:induction false} SumBelow(values: seq<real>, bound: real)
    requires values != [] && forall v :: v in values ==> Below(v, bound)
    ensures Below(Sum(values), bound * (|values| as real))
  {
    var earlier, last := values[..|values| - 1], values[|values| - 1];
    assert last in values;
    if earlier == [] {
      assert Sum(values) == last;
    } else {
      assert forall v :: v in earlier ==> v in values;
      SumBelow(earlier, bound);
      var before, after := bound * (|earlier| as real), bound * (|values| as real);
      assert |values| as real == |earlier| as real + 1.0;
      assert after == before + bound;
      assert Sum(values) == Sum(earlier) + last && Below(last, bound) && Below(Sum(earlier), before);
    }
  }

  lemma QuotientBelow(sum: real, bound: real, n: real)
    requires n > 0.0 && Below(sum, bound * n)
    ensures Below(sum / n, bound)
  {
    var x := sum / n;
    assert sum == x * n;
    if x >= bound { TimesMono(bound, x, n); }
    if x <= -bound { TimesMono(x, -bound, n); }
  }

  lemma TimesMono(a: real, b: real, n: real)
    requires a <= b && n > 0.0
    ensures a * n <= b * n
  {}

  /** The mean of admitted values is below the magnitude limit. */
  lemma MeanBelow(w: Window, cell: Option<Cell>)
    requires ValuesOf(w, cell) != []
    ensures Below(Mean(ValuesOf(w, cell)), MAGNITUDE_LIMIT)
  {
    var values := ValuesOf(w, cell);
    AdmittedValues(w, Unique(cell.value));
    hide ValuesOf, ValuesIn, Sum;
    SumBelow(values, MAGNITUDE_LIMIT);
    QuotientBelow(Sum(values), MAGNITUDE_LIMIT, |values| as real);
  }

  /** One of the numbers of a signal that are rounded whether or not the signal is sufficient. */
  ghost predicate Reported(s: SignalDiD, x: real) {
    s.treatmentDelta == Some(x) || s.controlDelta == Some(x) || s.net == Some(x)
  }

  /** Four means below the limit bound the deltas and the lift. */
  lemma ReportedBelow(w: Window, series: seq<Option<Cell>>, policy: Policy, x: real)
    requires |series| == CELLS && Reported(SignalOf(w, series, policy), x)
    ensures Below(x, 4.0 * MAGNITUDE_LIMIT)
  {
    forall c | 0 <= c < CELLS && ValuesOf(w, series[c]) != []
      ensures Below(Mean(ValuesOf(w, series[c])), MAGNITUDE_LIMIT)
    {
      MeanBelow(w, series[c]);
    }
    hide ValuesOf, Mean, CodesOf, SignStable;
  }

  // ------------------------------------------------------- lifts are reported

  lemma Pow10Values()
    ensures R.Pow10(10) == 10_000_000_000
    ensures R.Pow10(18) == 1_000_000_000_000_000_000
    ensures R.Pow10(60) == 1_000_000_000_000_000_000_000_000_000_000_000_000_000_000_000_000_000_000_000_000
  {
    assert R.Pow10(2) == 100 && R.Pow10(3) == 1000;
    R.Pow10Sum(3, 3);
    R.Pow10Sum(6, 2);
    R.Pow10Sum(8, 2);
    R.Pow10Sum(8, 10);
    R.Pow10Sum(10, 10);
    R.Pow10Sum(20, 10);
    R.Pow10Sum(30, 30);
  }

  /** p / q is the value. */
  predicate IsFraction(x: real, p: int, q: int) {
    q > 0 && x * (q as real) == p as real
  }

  /** A comparison of a fraction, cleared of its denominator. */
  lemma ClearedComparison(x: real, p: int, q: int, a: int, b: int)
    requires IsFraction(x, p, q) && a > 0
    ensures a * R.Abs(p) >= b * q <==> (a as real) * AbsReal(x) >= b as real
  {
    var n := q as real;
    assert R.Abs(p) as real == AbsReal(x) * n by {
      if p < 0 { assert x < 0.0; } else { assert x >= 0.0; }
    }
    var left := (a as real) * AbsReal(x);
    assert (a * R.Abs(p)) as real == (a as real) * (R.Abs(p) as real) == left * n;
    assert (b * q) as real == (b as real) * n;
    if left >= b as real { assert left * n >= (b as real) * n; } else { assert left * n < (b as real) * n; }
  }

  /** Every delta and lift of admitted values is reported, off by at most half a quantum and 10^-41, and rounded just
      once if its denominator is at most 10^31. */
  lemma LiftIsReported(w: Window, series: seq<Option<Cell>>, policy: Policy, x: real, p: int, q: int)
    requires |series| == CELLS && Reported(SignalOf(w, series, policy), x) && IsFraction(x, p, q)
    ensures R.LiftSized(p, q) && R.Round(p, q).Quantised?
    ensures 2 * R.Abs(R.Round(p, q).units * q - p * R.Pow10(R.PLACES)) * R.Pow10(31) <= q * R.Pow10(31) + q
    ensures q <= R.Pow10(31) ==> R.Round(p, q) == R.Quantised(R.RoundHalfEven(p * R.Pow10(R.PLACES), q))
  {
    ReportedBelow(w, series, policy, x);
    LiftSizedIfBelow(x, p, q);
    hide SignalOf, R.Round, R.RoundHalfEven, R.Pow10, R.LiftSized;
    R.RoundError(p, q);
    if q <= R.Pow10(31) { R.RoundIsOneRounding(p, q); }
  }

  lemma LiftSizedIfBelow(x: real, p: int, q: int)
    requires Below(x, 4.0 * MAGNITUDE_LIMIT) && IsFraction(x, p, q)
    ensures R.LiftSized(p, q)
  {
    Pow10Values();
    var limit := 4 * R.Pow10(18);
    assert limit as real == 4.0 * MAGNITUDE_LIMIT;
    ClearedComparison(x, p, q, 1, limit);
    hide R.Pow10;
    assert limit * q == 4 * (R.Pow10(18) * q);
  }

  // -------------------------------------------------------------- the margin

  /** Half a unit of the tenth place below 10^50. */
  const RAISING_GAP: real := 100_000_000_000_000_000_000_000_000_000_000_000_000_000_000_000_000.0 - 0.000_000_000_05

  /** The margin of a judged signal raises in `quantize` exactly when the threshold exceeds the lift by 10^50, less half
      a unit: never below that threshold, and always from there on once the largest lift is added. */
  lemma MarginRaisesIffThresholdIsHuge(w: Window, series: seq<Option<Cell>>, policy: Policy, p: int, q: int)
    requires |series| == CELLS && policy.effectThreshold >= 0.0
    requires SignalOf(w, series, policy).margin.Some? && IsFraction(SignalOf(w, series, policy).margin.value, p, q)
    ensures SignalOf(w, series, policy).net.Some?
    ensures R.Round(p, q).InvalidOperation? <==>
              policy.effectThreshold - AbsReal(SignalOf(w, series, policy).net.value) >= RAISING_GAP
    ensures policy.effectThreshold < RAISING_GAP ==> R.Round(p, q).Quantised?
    ensures policy.effectThreshold >= RAISING_GAP + 4.0 * MAGNITUDE_LIMIT ==> R.Round(p, q).InvalidOperation?
  {
    var s := SignalOf(w, series, policy);
    MarginIs(w, series, policy);
    ReportedBelow(w, series, policy, s.net.value);
    RaisesIffBeyondGap(s.margin.value, p, q);
    hide SignalOf, R.Round;
  }

  lemma MarginIs(w: Window, series: seq<Option<Cell>>, policy: Policy)
    requires |series| == CELLS && SignalOf(w, series, policy).margin.Some?
    ensures var s := SignalOf(w, series, policy);
            s.net.Some? && s.margin.value == AbsReal(s.net.value) - policy.effectThreshold
  {
    hide ValuesOf, Mean, CodesOf, SignStable;
  }

  lemma RaisesIffBeyondGap(x: real, p: int, q: int)
    requires IsFraction(x, p, q)
    ensures R.Round(p, q).InvalidOperation? <==> AbsReal(x) >= RAISING_GAP
  {
    R.RaisesIffTooLarge(p, q);
    Pow10Values();
    ClearedComparison(x, p, q, 2 * R.Pow10(R.PLACES), 2 * R.Pow10(R.PRECISION) - 1);
    hide R.Round;
  }

  // ---------------------------------------------------------- it does happen

  const HUGE_THRESHOLD: real := 1_000_000_000_000_000_000_000_000_000_000_000_000_000_000_000_000_000.0

  function OneZero(): Option<Cell> {
    Some(Cell([Entry("a", Finite(0.0), 0)], false))
  }

  const HUGE_INTEGER: int := 1_000_000_000_000_000_000_000_000_000_000_000_000_000_000_000_000_000

  /** Four cells of one repeat each, all zero, under a threshold of 10^51: the signal is sufficient, and its margin
      raises. */
  lemma MarginCanRaise()
    ensures var s := SignalOf(Window(None, None), [OneZero(), OneZero(), OneZero(), OneZero()],
                              Policy(1, HUGE_THRESHOLD));
            s.codes == [] && s.net == Some(0.0) && s.margin == Some(-HUGE_THRESHOLD)
    ensures IsFraction(-HUGE_THRESHOLD, -HUGE_INTEGER, 1) && R.Round(-HUGE_INTEGER, 1).InvalidOperation?
  {
    hide *;
    ZerosUnder(Policy(1, HUGE_THRESHOLD));
    HugeRaises();
  }

  lemma HugeRaises()
    ensures IsFraction(-HUGE_THRESHOLD, -HUGE_INTEGER, 1) && R.Round(-HUGE_INTEGER, 1).InvalidOperation?
  {
    hide R.Round;
    RaisesIffBeyondGap(-HUGE_THRESHOLD, -HUGE_INTEGER, 1);
  }

  lemma ZerosUnder(policy: Policy)
    requires policy.minRepeats == 1
    ensures var s := SignalOf(Window(None, None), [OneZero(), OneZero(), OneZero(), OneZero()], policy);
            s.codes == [] && s.net == Some(0.0) && s.margin == Some(-policy.effectThreshold)
  {
    var w, series := Window(None, None), [OneZero(), OneZero(), OneZero(), OneZero()];
    ZeroCell(w);
    NoCodeApplies(w, series);
    hide ValuesOf, CodesOf, OneZero, Assemble, LateOf, HasFault;
    AllZeroNumbers(policy, LateOf(w, series[0]) + LateOf(w, series[1]) + LateOf(w, series[2]) + LateOf(w, series[3]));
  }

  lemma AllZeroNumbers(policy: Policy, late: nat)
    ensures var s := Assemble([[0.0], [0.0], [0.0], [0.0]], [], late, policy);
            s.codes == [] && s.net == Some(0.0) && s.margin == Some(-policy.effectThreshold)
  {
    Laws.MeanOfOne(0.0);
    hide Mean, SignStable;
  }

  lemma ZeroCell(w: Window)
    requires w == Window(None, None)
    ensures ValuesOf(w, OneZero()) == [0.0]
    ensures forall f :: !HasFault(f, w, 1, OneZero().value)
  {
    var entries := OneZero().value.entries;
    assert entries[..0] == [];
    assert ValuesIn(w, []) == [];
    assert ValuesIn(w, entries) == [] + [0.0];
    forall f ensures !HasFault(f, w, 1, OneZero().value) {
      match f case Few => case NonFinite => case NonRepresentable => case Clash =>
    }
  }

  lemma NoCodeApplies(w: Window, series: seq<Option<Cell>>)
    requires w == Window(None, None) && series == [OneZero(), OneZero(), OneZero(), OneZero()]
    ensures CodesOf(w, series, 1) == []
  {
    ZeroCell(w);
    hide HasFault;
    assert forall c :: c in series ==> c == OneZero();
    assert forall f :: !AnyFault(f, w, 1, series);
    hide AnyFault;
    assert forall c :: !Applies(c, w, series, 1);
    hide Applies, CodesOf;
    CodesOfMeaning(w, series, 1);
  }
}

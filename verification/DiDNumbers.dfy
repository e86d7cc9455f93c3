/** The numbers and codes of one signal, told from its cells: what is counted, averaged, subtracted and judged. */
module DiDNumbers {
  import opened Common
  import opened DiD

  // ---------------------------------------------------------------- readings

  /** The value is finite and below the magnitude limit. */
  predicate Usable(e: Entry) {
    e.value.Finite? && -1_000_000_000_000_000_000.0 < e.value.value < 1_000_000_000_000_000_000.0
  }

  /** The timestamp lies in the window, both ends included. */
  predicate Inside(w: Window, e: Entry) {
    (w.start.Some? ==> w.start.value <= e.at) && (w.end.Some? ==> e.at <= w.end.value)
  }

  function Count(entries: seq<Entry>, p: Entry -> bool): nat {
    if entries == [] then 0 else Count(entries[..|entries| - 1], p) + (if p(entries[|entries| - 1]) then 1 else 0)
  }

  /** Reading a cell loses and invents nothing: each usable value in the window is used as often as it is there, each
      usable one outside is counted as late, and the rest is neither. */
  lemma {:induction false} ReadingsAre(w: Window, entries: seq<Entry>)
    ensures forall v :: multiset(ValuesIn(w, entries))[v]
                        == Count(entries, e => Usable(e) && Inside(w, e) && e.value.value == v)
    ensures |ValuesIn(w, entries)| == Count(entries, e => Usable(e) && Inside(w, e))
    ensures LateIn(w, entries) == Count(entries, e => Usable(e) && !Inside(w, e))
    ensures |ValuesIn(w, entries)| + LateIn(w, entries) + Count(entries, e => !Usable(e)) == |entries|
  {
    if entries != [] {
      ReadingsAre(w, entries[..|entries| - 1]);
    }
  }

  /** A mean times the number of values is their sum, which adds up one by one. */
  lemma MeanIsAverage(values: seq<real>, x: real)
    ensures Sum([]) == 0.0
    ensures Sum(values + [x]) == Sum(values) + x
    ensures values != [] ==> Mean(values) * (|values| as real) == Sum(values)
  {
    SumOneMore(values, x);
    hide Sum;
    if values != [] { Quotient(Sum(values), |values| as real, Mean(values)); }
  }

  lemma SumOneMore(values: seq<real>, x: real)
    ensures Sum([]) == 0.0 && Sum(values + [x]) == Sum(values) + x
  {
    assert (values + [x])[..|values|] == values;
  }

  lemma Quotient(sum: real, n: real, mean: real)
    requires n > 0.0 && mean == sum / n
    ensures mean * n == sum
  {}

  // ----------------------------------------------------------------- numbers

  /** A signal's counts, deltas and lift. */
  lemma NumbersAre(w: Window, series: seq<Option<Cell>>, policy: Policy)
    requires |series| == 4
    ensures var s := SignalOf(w, series, policy);
            var before, after := ValuesOf(w, series[0]), ValuesOf(w, series[1]);
            var before', after' := ValuesOf(w, series[2]), ValuesOf(w, series[3]);
            && s.sampleCounts == [|before|, |after|, |before'|, |after'|]
            && s.excludedLate == LateOf(w, series[0]) + LateOf(w, series[1]) + LateOf(w, series[2])
                                 + LateOf(w, series[3])
            && (s.treatmentDelta.Some? <==> before != [] && after != [])
            && (s.treatmentDelta.Some? ==> s.treatmentDelta.value == Mean(after) - Mean(before))
            && (s.controlDelta.Some? <==> before' != [] && after' != [])
            && (s.controlDelta.Some? ==> s.controlDelta.value == Mean(after') - Mean(before'))
            && (s.net.Some? <==> before != [] && after != [] && before' != [] && after' != [])
            && (s.net.Some? ==> s.net.value == (Mean(after) - Mean(before)) - (Mean(after') - Mean(before')))
  {
    hide ValuesOf, LateOf, CodesOf, SignStable, Mean;
  }

  /** The sign of a number: whether it is above, below, or at zero. */
  predicate SameSign(x: real, y: real) {
    (x > 0.0 <==> y > 0.0) && (x < 0.0 <==> y < 0.0)
  }

  /** The lift with one cell's mean replaced. */
  function LiftWith(means: seq<real>, c: nat, mean: real): real
    requires |means| == 4 && c < 4
  {
    var m := means[c := mean];
    (m[1] - m[0]) - (m[3] - m[2])
  }

  /** Leaving out any one repeat, of any cell with another, keeps the sign of the lift. */
  ghost predicate KeepsItsSign(cells: seq<seq<real>>, means: seq<real>, net: real)
    requires |cells| == |means| == 4
  {
    forall c: nat, i: nat :: c < 4 && i < |cells[c]| && |cells[c]| >= 2 ==>
      SameSign(LiftWith(means, c, Mean(Without(cells[c], i))), net)
  }

  /** A signal is judged exactly when it carries no code; then its margin is what the lift has over the threshold,
      which it meets exactly when that is not negative, and it is stable exactly when no one repeat decides its sign.
      */
  lemma JudgementIs(w: Window, series: seq<Option<Cell>>, policy: Policy)
    requires |series| == 4 && policy.minRepeats > 0
    ensures var s := SignalOf(w, series, policy);
            var cells := [ValuesOf(w, series[0]), ValuesOf(w, series[1]),
                          ValuesOf(w, series[2]), ValuesOf(w, series[3])];
            && (s.codes == [] <==> s.margin.Some?)
            && (s.codes == [] <==> s.meetsThreshold.Some?)
            && (s.codes == [] <==> s.signStable.Some?)
            && (s.codes == [] ==>
                  && s.net.Some? && (forall c :: 0 <= c < 4 ==> cells[c] != [])
                  && (s.net.value >= 0.0 ==> s.margin.value == s.net.value - policy.effectThreshold)
                  && (s.net.value <= 0.0 ==> s.margin.value == -s.net.value - policy.effectThreshold)
                  && (s.meetsThreshold.value <==>
                        s.net.value >= policy.effectThreshold || s.net.value <= -policy.effectThreshold)
                  && (s.meetsThreshold.value <==> s.margin.value >= 0.0)
                  && (s.signStable.value <==>
                        KeepsItsSign(cells, [Mean(cells[0]), Mean(cells[1]), Mean(cells[2]), Mean(cells[3])],
                                     s.net.value)))
  {
    var cells := AllValues(w, series);
    var s := SignalOf(w, series, policy);
    if s.codes == [] {
      SufficientHasAllMeans(w, series, policy.minRepeats);
      StableIs(cells);
      NumbersAre(w, series, policy);
    }
    hide ValuesOf, LateOf, CodesOf, SignStable, Mean, KeepsItsSign;
  }

  lemma StableIs(cells: seq<seq<real>>)
    requires AllPresent(cells)
    ensures SignStable(cells) <==> KeepsItsSign(cells, Means(cells), NetOf(Means(cells)))
  {
    var means := Means(cells);
    forall c: nat, i: nat | c < 4 && i < |cells[c]| && |cells[c]| >= 2
      ensures Sign(NetWithout(cells, c, i)) == Sign(NetOf(means))
         <==> SameSign(LiftWith(means, c, Mean(Without(cells[c], i))), NetOf(means))
    {
      hide Mean;
    }
    hide Mean, NetWithout, SameSign, LiftWith, Without;
  }

  // ------------------------------------------------------------------- codes

  /** A cell has fewer values to use than asked for. */
  ghost predicate TooFew(w: Window, series: seq<Option<Cell>>, minRepeats: nat) {
    exists c :: c in series && c.Some? && |ValuesOf(w, c)| < minRepeats
  }

  ghost predicate SomeNonFinite(series: seq<Option<Cell>>) {
    exists c, e :: c in series && c.Some? && e in Unique(c.value) && !e.value.Finite?
  }

  ghost predicate SomeTooLarge(series: seq<Option<Cell>>) {
    exists c, e :: c in series && c.Some? && e in Unique(c.value) && e.value.Finite? && !Usable(e)
  }

  /** Two repeats of one cell carry one id and differ. */
  ghost predicate SomeClash(series: seq<Option<Cell>>) {
    exists c, d, e :: c in series && c.Some? && c.value.hasIds && d in c.value.entries && e in c.value.entries
                      && d.id == e.id && d != e
  }

  /** One code is recorded before another: too few repeats first, then what is missing, then what the values show. */
  predicate RecordedBefore(a: Code, b: Code) {
    match a
    case InsufficientRepeats => !b.InsufficientRepeats?
    case MissingBaseline => !b.InsufficientRepeats? && !b.MissingBaseline?
    case MissingControl => !b.InsufficientRepeats? && !b.MissingBaseline? && !b.MissingControl?
    case MissingPost => b.NonFiniteValue? || b.NonRepresentableMagnitude? || b.DuplicateObservationConflict?
    case NonFiniteValue => b.NonRepresentableMagnitude? || b.DuplicateObservationConflict?
    case NonRepresentableMagnitude => b.DuplicateObservationConflict?
    case DuplicateObservationConflict => false
  }

  lemma RanksRecord(a: Code, b: Code)
    ensures Rank(a) < Rank(b) <==> RecordedBefore(a, b)
  {}

  /** Each code of a signal is there for its reason, and for each reason there is its code, once, in order. */
  lemma CodesAre(w: Window, series: seq<Option<Cell>>, policy: Policy)
    requires |series| == 4
    ensures var codes := SignalOf(w, series, policy).codes;
            && (InsufficientRepeats in codes <==> TooFew(w, series, policy.minRepeats))
            && (MissingBaseline in codes <==> series[0].None?)
            && (MissingControl in codes <==> series[2].None? || series[3].None?)
            && (MissingPost in codes <==> series[1].None? || series[3].None?)
            && (NonFiniteValue in codes <==> SomeNonFinite(series))
            && (NonRepresentableMagnitude in codes <==> SomeTooLarge(series))
            && (DuplicateObservationConflict in codes <==> SomeClash(series))
            && (forall i, j :: 0 <= i < j < |codes| ==> RecordedBefore(codes[i], codes[j]))
  {
    var n := policy.minRepeats;
    FewFault(w, series, n);
    NonFiniteFault(w, series, n);
    TooLargeFault(w, series, n);
    ClashFault(w, series, n);
    CodesOfMeaning(w, series, n);
    InRecordedOrder(CodesOf(w, series, n));
    SignalCodes(w, series, policy);
    AppliesFor(w, series, n);
    hide *;
  }

  lemma AppliesFor(w: Window, series: seq<Option<Cell>>, n: nat)
    requires |series| == 4
    ensures Applies(InsufficientRepeats, w, series, n) <==> AnyFault(Few, w, n, series)
    ensures Applies(MissingBaseline, w, series, n) <==> series[0].None?
    ensures Applies(MissingControl, w, series, n) <==> series[2].None? || series[3].None?
    ensures Applies(MissingPost, w, series, n) <==> series[1].None? || series[3].None?
    ensures Applies(NonFiniteValue, w, series, n) <==> AnyFault(NonFinite, w, n, series)
    ensures Applies(NonRepresentableMagnitude, w, series, n) <==> AnyFault(NonRepresentable, w, n, series)
    ensures Applies(DuplicateObservationConflict, w, series, n) <==> AnyFault(Clash, w, n, series)
  {
    hide AnyFault;
  }

  lemma InRecordedOrder(codes: seq<Code>)
    requires InOrder(codes)
    ensures forall i, j :: 0 <= i < j < |codes| ==> RecordedBefore(codes[i], codes[j])
  {
    hide Rank, RecordedBefore;
    forall i, j | 0 <= i < j < |codes| ensures RecordedBefore(codes[i], codes[j]) { RanksRecord(codes[i], codes[j]); }
  }

  lemma SignalCodes(w: Window, series: seq<Option<Cell>>, policy: Policy)
    requires |series| == 4
    ensures SignalOf(w, series, policy).codes == CodesOf(w, series, policy.minRepeats)
  {
    hide CodesOf, AllValues, LateOf, SignStable, Mean;
  }

  lemma FewFault(w: Window, series: seq<Option<Cell>>, minRepeats: nat)
    ensures AnyFault(Few, w, minRepeats, series) <==> TooFew(w, series, minRepeats)
  {
    hide Unique, ValuesIn;
    if c :| c in series && c.Some? && |ValuesOf(w, c)| < minRepeats { assert HasFault(Few, w, minRepeats, c.value); }
  }

  lemma NonFiniteFault(w: Window, series: seq<Option<Cell>>, minRepeats: nat)
    ensures AnyFault(NonFinite, w, minRepeats, series) <==> SomeNonFinite(series)
  {
    hide Unique;
    if c, e :| c in series && c.Some? && e in Unique(c.value) && !e.value.Finite? {
      assert HasFault(NonFinite, w, minRepeats, c.value);
    }
  }

  lemma TooLargeFault(w: Window, series: seq<Option<Cell>>, minRepeats: nat)
    ensures AnyFault(NonRepresentable, w, minRepeats, series) <==> SomeTooLarge(series)
  {
    hide Unique;
    if c, e :| c in series && c.Some? && e in Unique(c.value) && e.value.Finite? && !Usable(e) {
      assert HasFault(NonRepresentable, w, minRepeats, c.value);
    }
  }

  lemma ClashFault(w: Window, series: seq<Option<Cell>>, minRepeats: nat)
    ensures AnyFault(Clash, w, minRepeats, series) <==> SomeClash(series)
  {
    if c, d, e :| c in series && c.Some? && c.value.hasIds && d in c.value.entries && e in c.value.entries
                  && d.id == e.id && d != e {
      assert HasFault(Clash, w, minRepeats, c.value);
    }
  }
}

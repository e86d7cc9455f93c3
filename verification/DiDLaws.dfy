/** What the difference-in-differences numbers do and do not depend on. */
module DiDLaws {
  import opened Common
  import opened DiD

  // ---------------------------------------------- leave-one-out extremes

  lemma DivMono(a: real, b: real, d: real)
    requires a <= b && d > 0.0
    ensures a / d <= b / d
  {}

  lemma MeanWithout(values: seq<real>, i: nat)
    requires i < |values| && |values| >= 2
    ensures Mean(Without(values, i)) == (Sum(values) - values[i]) / ((|values| - 1) as real)
  {
    hide *;
    SumWithout(values, i);
    MeanIs(Without(values, i), Sum(values) - values[i], |values| - 1);
  }

  lemma MeanIs(values: seq<real>, sum: real, n: nat)
    requires Sum(values) == sum && |values| == n > 0
    ensures Mean(values) == sum / (n as real)
  {}

  ghost predicate Between(x: real, a: real, b: real) {
    a <= x <= b || b <= x <= a
  }

  /** The lift without a repeat lies between the lifts without a smaller and without a larger one. */
  lemma NetWithoutBetween(cells: seq<seq<real>>, c: nat, lo: nat, i: nat, hi: nat)
    requires AllPresent(cells) && c < CELLS && |cells[c]| >= 2
    requires lo < |cells[c]| && i < |cells[c]| && hi < |cells[c]|
    requires cells[c][lo] <= cells[c][i] <= cells[c][hi]
    ensures Between(NetWithout(cells, c, i), NetWithout(cells, c, lo), NetWithout(cells, c, hi))
  {
    var values := cells[c];
    var d := (|values| - 1) as real;
    MeanWithout(values, lo);
    MeanWithout(values, i);
    MeanWithout(values, hi);
    DivMono(Sum(values) - values[i], Sum(values) - values[lo], d);
    DivMono(Sum(values) - values[hi], Sum(values) - values[i], d);
    hide Sum, Mean, Without;
    assert c == 0 || c == 1 || c == 2 || c == 3;
  }

  /** `lo[c]` and `hi[c]` are where cell `c` has its least and its greatest value. */
  ghost predicate AreExtremes(cells: seq<seq<real>>, lo: seq<nat>, hi: seq<nat>)
    requires AllPresent(cells)
  {
    && |lo| == CELLS && |hi| == CELLS
    && forall c: nat :: c < CELLS ==>
         && lo[c] < |cells[c]| && hi[c] < |cells[c]|
         && forall i: nat :: i < |cells[c]| ==> cells[c][lo[c]] <= cells[c][i] <= cells[c][hi[c]]
  }

  /** The lift keeps its sign without each cell's least and without its greatest repeat. */
  ghost predicate ExtremesStable(cells: seq<seq<real>>, lo: seq<nat>, hi: seq<nat>)
    requires AllPresent(cells) && AreExtremes(cells, lo, hi)
  {
    forall c: nat :: c < CELLS && |cells[c]| >= 2 ==>
      && Sign(NetWithout(cells, c, lo[c])) == Sign(NetOf(Means(cells)))
      && Sign(NetWithout(cells, c, hi[c])) == Sign(NetOf(Means(cells)))
  }

  /** Checking every leave-one-out is the same as checking only each cell without its least and without its greatest
      repeat. */
  lemma StabilityIsDecidedByExtremes(cells: seq<seq<real>>, lo: seq<nat>, hi: seq<nat>)
    requires AllPresent(cells) && AreExtremes(cells, lo, hi)
    ensures SignStable(cells) <==> ExtremesStable(cells, lo, hi)
  {
    var full := Sign(NetOf(Means(cells)));
    hide NetWithout, Means, NetOf;
    if ExtremesStable(cells, lo, hi) {
      forall c: nat, i: nat | c < CELLS && i < |cells[c]| && |cells[c]| >= 2
        ensures Sign(NetWithout(cells, c, i)) == full {
        NetWithoutBetween(cells, c, lo[c], i, hi[c]);
        SignBetween(NetWithout(cells, c, i), NetWithout(cells, c, lo[c]), NetWithout(cells, c, hi[c]), full);
      }
    }
  }

  lemma SignBetween(x: real, a: real, b: real, s: int)
    requires Between(x, a, b) && Sign(a) == s && Sign(b) == s
    ensures Sign(x) == s
  {}

  // ------------------------------------------------------- swapping arms

  function SwapArms<T>(s: seq<T>): seq<T>
    requires |s| == CELLS
  {
    [s[BASELINE_CONTROL], s[POST_CONTROL], s[BASELINE_TREATMENT], s[POST_TREATMENT]]
  }

  function Partner(c: nat): nat
    requires c < CELLS
  {
    if c < 2 then c + 2 else c - 2
  }

  lemma NetOfSwapped(cells: seq<seq<real>>)
    requires AllPresent(cells)
    ensures AllPresent(SwapArms(cells))
    ensures NetOf(Means(SwapArms(cells))) == -NetOf(Means(cells))
    ensures forall c: nat, i: nat :: c < CELLS && |cells[c]| >= 2 && i < |cells[c]| ==>
              NetWithout(SwapArms(cells), Partner(c), i) == -NetWithout(cells, c, i)
  {
    hide Mean, Without;
  }

  lemma SwappedIsStable(cells: seq<seq<real>>)
    requires AllPresent(cells)
    ensures AllPresent(SwapArms(cells))
    ensures SignStable(SwapArms(cells)) <==> SignStable(cells)
  {
    NetOfSwapped(cells);
    var swapped := SwapArms(cells);
    hide NetWithout, Means, NetOf;
    forall c: nat | c < CELLS ensures swapped[Partner(c)] == cells[c] && swapped[c] == cells[Partner(c)]
        && Partner(Partner(c)) == c {}
    if SignStable(cells) {
      forall c: nat, i: nat | c < CELLS && i < |swapped[c]| && |swapped[c]| >= 2
        ensures Sign(NetWithout(swapped, c, i)) == Sign(NetOf(Means(swapped)))
      {
        assert NetWithout(swapped, Partner(Partner(c)), i) == -NetWithout(cells, Partner(c), i);
      }
    }
    if SignStable(swapped) {
      forall c: nat, i: nat | c < CELLS && i < |cells[c]| && |cells[c]| >= 2
        ensures Sign(NetWithout(cells, c, i)) == Sign(NetOf(Means(cells)))
      {
        assert NetWithout(swapped, Partner(c), i) == -NetWithout(cells, c, i);
      }
    }
  }

  /** Exchanging the arms of a sufficient signal exchanges the raw deltas, negates the lift, and keeps the rest. */
  lemma SwappingArmsNegatesTheLift(w: Window, series: seq<Option<Cell>>, policy: Policy)
    requires |series| == CELLS && policy.minRepeats > 0
    requires SignalOf(w, series, policy).codes == []
    ensures var s, t := SignalOf(w, series, policy), SignalOf(w, SwapArms(series), policy);
            && s.net.Some? && t.net == Some(-s.net.value)
            && t.treatmentDelta == s.controlDelta && t.controlDelta == s.treatmentDelta
            && t.codes == [] && t.excludedLate == s.excludedLate
            && t.signStable == s.signStable && t.margin == s.margin && t.meetsThreshold == s.meetsThreshold
  {
    SwappedCodes(w, series, policy.minRepeats);
    SufficientHasAllMeans(w, series, policy.minRepeats);
    SwappedValues(w, series);
    hide CodesOf, Assemble, AllValues, LateOf;
    SwappedNumbers(AllValues(w, series), LateOf(w, series[0]) + LateOf(w, series[1]) + LateOf(w, series[2])
                   + LateOf(w, series[3]), policy);
  }

  lemma SwappedNumbers(cells: seq<seq<real>>, late: nat, policy: Policy)
    requires AllPresent(cells)
    ensures AllPresent(SwapArms(cells))
    ensures var s, t := Assemble(cells, [], late, policy), Assemble(SwapArms(cells), [], late, policy);
            && s.net.Some? && t.net == Some(-s.net.value)
            && t.treatmentDelta == s.controlDelta && t.controlDelta == s.treatmentDelta
            && t.codes == [] && t.excludedLate == s.excludedLate
            && t.signStable == s.signStable && t.margin == s.margin && t.meetsThreshold == s.meetsThreshold
  {
    SwappedIsStable(cells);
    hide SignStable, Mean;
  }

  lemma SwappedValues(w: Window, series: seq<Option<Cell>>)
    requires |series| == CELLS
    ensures AllValues(w, SwapArms(series)) == SwapArms(AllValues(w, series))
  {
    hide ValuesOf;
  }

  lemma SwappedCodes(w: Window, series: seq<Option<Cell>>, minRepeats: nat)
    requires |series| == CELLS && CodesOf(w, series, minRepeats) == []
    ensures CodesOf(w, SwapArms(series), minRepeats) == []
  {
    hide HasFault;
    NoCodesMeansNoFaults(w, series, minRepeats);
    var swapped := SwapArms(series);
    assert swapped[0] == series[2] && swapped[1] == series[3] && swapped[2] == series[0] && swapped[3] == series[1];
    assert forall c :: c in swapped ==> c in series;
    forall f ensures !AnyFault(f, w, minRepeats, swapped) {
      assert !AnyFault(f, w, minRepeats, series);
    }
    hide AnyFault;
    assert forall c :: !Applies(c, w, swapped, minRepeats);
    CodesOfMeaning(w, swapped, minRepeats);
  }

  lemma NoCodesMeansNoFaults(w: Window, series: seq<Option<Cell>>, minRepeats: nat)
    requires |series| == CELLS && CodesOf(w, series, minRepeats) == []
    ensures forall f :: !AnyFault(f, w, minRepeats, series)
    ensures forall c :: 0 <= c < CELLS ==> series[c].Some?
  {
    hide AnyFault, CodesOf, InOrder;
    assert forall c :: !Applies(c, w, series, minRepeats) by {
      CodesOfMeaning(w, series, minRepeats);
    }
    assert !Applies(MissingBaseline, w, series, minRepeats) && !Applies(MissingControl, w, series, minRepeats)
        && !Applies(MissingPost, w, series, minRepeats);
    forall f ensures !AnyFault(f, w, minRepeats, series) {
      match f
      case Few => assert !Applies(InsufficientRepeats, w, series, minRepeats);
      case NonFinite => assert !Applies(NonFiniteValue, w, series, minRepeats);
      case NonRepresentable => assert !Applies(NonRepresentableMagnitude, w, series, minRepeats);
      case Clash => assert !Applies(DuplicateObservationConflict, w, series, minRepeats);
    }
  }

  // ----------------------------------------------------- common trends

  function Shift(values: seq<real>, amount: real): seq<real> {
    seq(|values|, i requires 0 <= i < |values| => values[i] + amount)
  }

  lemma {:induction false} SumOfShift(values: seq<real>, amount: real)
    ensures Sum(Shift(values, amount)) == Sum(values) + amount * (|values| as real)
  {
    if values != [] {
      var earlier := values[..|values| - 1];
      SumOfShift(earlier, amount);
      assert Shift(values, amount)[..|values| - 1] == Shift(earlier, amount);
    }
  }

  lemma MeanOfShift(values: seq<real>, amount: real)
    requires values != []
    ensures Mean(Shift(values, amount)) == Mean(values) + amount
  {
    SumOfShift(values, amount);
    var n := |values| as real;
    assert (Sum(values) + amount * n) / n == Sum(values) / n + amount;
  }

  /** A trend common to both arms is removed: raising every post repeat of both arms by one amount leaves the lift as it
      was, so a treatment whose control grew as much shows no lift. */
  lemma CommonTrendCancels(cells: seq<seq<real>>, trend: real)
    requires AllPresent(cells)
    ensures var trended := [cells[0], Shift(cells[1], trend), cells[2], Shift(cells[3], trend)];
            AllPresent(trended) && NetOf(Means(trended)) == NetOf(Means(cells))
  {
    MeanOfShift(cells[1], trend);
    MeanOfShift(cells[3], trend);
    hide Mean, Sum;
  }

  // ------------------------------------------- order and replays of repeats

  /** The same repeats in some order; or, where ids are given and do not clash, the same repeats any number of times. */
  ghost predicate SameRepeats(a: Cell, b: Cell) {
    && a.hasIds == b.hasIds
    && if a.hasIds then !Conflict(a.entries) && (forall e :: e in a.entries <==> e in b.entries)
       else multiset(a.entries) == multiset(b.entries)
  }

  lemma SameRepeatsUnique(a: Cell, b: Cell)
    requires SameRepeats(a, b)
    ensures multiset(Unique(a)) == multiset(Unique(b))
  {
    if a.hasIds {
      UniqueIsTheSet(a.entries);
      UniqueIsTheSet(b.entries);
      assert (set e | e in a.entries) == (set e | e in b.entries);
    }
  }

  lemma {:induction false} ReadConcat(w: Window, a: seq<Entry>, b: seq<Entry>)
    ensures ValuesIn(w, a + b) == ValuesIn(w, a) + ValuesIn(w, b)
    ensures LateIn(w, a + b) == LateIn(w, a) + LateIn(w, b)
  {
    if b == [] {
      assert a + b == a;
    } else {
      assert (a + b)[..|a + b| - 1] == a + b[..|b| - 1];
      ReadConcat(w, a, b[..|b| - 1]);
    }
  }

  /** What a cell reads as depends on its repeats, not on their order. */
  lemma {:induction false} ReadOfPermutation(w: Window, a: seq<Entry>, b: seq<Entry>)
    requires multiset(a) == multiset(b)
    ensures multiset(ValuesIn(w, a)) == multiset(ValuesIn(w, b))
    ensures LateIn(w, a) == LateIn(w, b)
    decreases |a|
  {
    assert |a| == |multiset(a)| && |b| == |multiset(b)|;
    if a != [] {
      var earlier, last := a[..|a| - 1], a[|a| - 1];
      assert a == earlier + [last];
      assert last in multiset(b);
      var i :| 0 <= i < |b| && b[i] == last;
      var front, back := b[..i], b[i + 1..];
      assert b == front + [last] + back;
      SplitBags(earlier, last, front, back);
      ReadOfPermutation(w, earlier, front + back);
      ReadConcat(w, front, back);
      ReadConcat(w, front + [last], back);
      ReadConcat(w, front, [last]);
      ReadConcat(w, earlier, [last]);
    }
  }

  lemma SplitBags<T>(earlier: seq<T>, last: T, front: seq<T>, back: seq<T>)
    requires multiset(earlier + [last]) == multiset(front + [last] + back)
    ensures multiset(earlier) == multiset(front + back)
  {
    var m, k := multiset(earlier), multiset(front + back);
    assert multiset(earlier + [last]) == m + multiset{last};
    assert multiset(front + [last] + back) == k + multiset{last};
    assert m == (m + multiset{last}) - multiset{last} && k == (k + multiset{last}) - multiset{last};
  }

  lemma MultisetTellsMembers<T>(a: seq<T>, b: seq<T>)
    requires multiset(a) == multiset(b)
    ensures forall x :: x in a <==> x in b
    ensures |a| == |b|
  {
    forall x ensures x in a <==> x in b {
      assert x in multiset(a) <==> x in multiset(b);
    }
    assert |a| == |multiset(a)| && |b| == |multiset(b)|;
  }

  lemma SameRepeatsSameFaults(w: Window, minRepeats: nat, a: Cell, b: Cell)
    requires SameRepeats(a, b)
    ensures forall f :: HasFault(f, w, minRepeats, a) <==> HasFault(f, w, minRepeats, b)
    ensures multiset(ValuesIn(w, Unique(a))) == multiset(ValuesIn(w, Unique(b)))
    ensures LateIn(w, Unique(a)) == LateIn(w, Unique(b))
  {
    SameRepeatsUnique(a, b);
    ReadOfPermutation(w, Unique(a), Unique(b));
    MultisetTellsMembers(Unique(a), Unique(b));
    MultisetTellsMembers(ValuesIn(w, Unique(a)), ValuesIn(w, Unique(b)));
    hide ValuesIn, LateIn, FirstSeen;
    forall f ensures HasFault(f, w, minRepeats, a) <==> HasFault(f, w, minRepeats, b) {
      match f case Few => case NonFinite => case NonRepresentable => case Clash =>
    }
  }

  function NetRemoving(cells: seq<seq<real>>, c: nat, v: real): real
    requires AllPresent(cells) && c < CELLS && |cells[c]| >= 2
  {
    NetOf(Means(cells)[c := (Sum(cells[c]) - v) / ((|cells[c]| - 1) as real)])
  }

  /** Stability, told by the values removed rather than by their places. */
  ghost predicate StableByValue(cells: seq<seq<real>>)
    requires AllPresent(cells)
  {
    forall c: nat, v: real :: c < CELLS && |cells[c]| >= 2 && v in cells[c] ==>
      Sign(NetRemoving(cells, c, v)) == Sign(NetOf(Means(cells)))
  }

  lemma StableByValueIsStable(cells: seq<seq<real>>)
    requires AllPresent(cells)
    ensures SignStable(cells) <==> StableByValue(cells)
  {
    forall c: nat, i: nat | c < CELLS && i < |cells[c]| && |cells[c]| >= 2
      ensures NetWithout(cells, c, i) == NetRemoving(cells, c, cells[c][i])
    {
      MeanWithout(cells[c], i);
      hide Means, NetOf, Sum, Mean;
    }
    hide Means, NetOf, NetRemoving, NetWithout;
    if SignStable(cells) {
      forall c: nat, v: real | c < CELLS && |cells[c]| >= 2 && v in cells[c]
        ensures Sign(NetRemoving(cells, c, v)) == Sign(NetOf(Means(cells)))
      {
        var i :| 0 <= i < |cells[c]| && cells[c][i] == v;
        assert NetWithout(cells, c, i) == NetRemoving(cells, c, v);
      }
    }
  }

  ghost predicate SameBags(a: seq<seq<real>>, b: seq<seq<real>>) {
    |a| == CELLS && |b| == CELLS && forall c :: 0 <= c < CELLS ==> multiset(a[c]) == multiset(b[c])
  }

  lemma SameBagsSameMeans(a: seq<seq<real>>, b: seq<seq<real>>)
    requires SameBags(a, b)
    ensures forall c :: 0 <= c < CELLS ==> MeanOf(a[c]) == MeanOf(b[c]) && |a[c]| == |b[c]| && Sum(a[c]) == Sum(b[c])
    ensures forall c, v :: 0 <= c < CELLS ==> (v in a[c] <==> v in b[c])
    ensures AllPresent(a) <==> AllPresent(b)
    ensures AllPresent(a) ==> Means(a) == Means(b)
  {
    forall c | 0 <= c < CELLS
      ensures |a[c]| == |b[c]| && Sum(a[c]) == Sum(b[c]) && MeanOf(a[c]) == MeanOf(b[c])
              && (forall v :: v in a[c] <==> v in b[c])
    {
      SumOfPermutation(a[c], b[c]);
      MultisetTellsMembers(a[c], b[c]);
    }
    if AllPresent(a) {
      assert forall c :: 0 <= c < CELLS ==> Mean(a[c]) == Mean(b[c]);
    }
  }

  lemma SameBagsSameStability(a: seq<seq<real>>, b: seq<seq<real>>)
    requires SameBags(a, b) && AllPresent(a) && AllPresent(b)
    ensures SignStable(a) <==> SignStable(b)
  {
    SameBagsSameMeans(a, b);
    StableByValueIsStable(a);
    StableByValueIsStable(b);
    forall c: nat, v: real | c < CELLS && |a[c]| >= 2 ensures NetRemoving(a, c, v) == NetRemoving(b, c, v) {
      hide Means, NetOf, Sum;
    }
    hide Means, NetOf, NetRemoving, SignStable, SameBags;
  }

  ghost predicate SameSeries(a: seq<Option<Cell>>, b: seq<Option<Cell>>) {
    && |a| == CELLS && |b| == CELLS
    && forall c :: 0 <= c < CELLS ==>
                     (a[c].None? <==> b[c].None?) && (a[c].Some? ==> SameRepeats(a[c].value, b[c].value))
  }

  /** Permuting the repeats of any cell (with their ids and timestamps), and, where observation ids are supplied,
      inserting byte-identical replays anywhere, leaves the whole result of the signal unchanged, as long as no id
      clashes. */
  lemma OrderAndReplaysDoNotMatter(w: Window, a: seq<Option<Cell>>, b: seq<Option<Cell>>, policy: Policy)
    requires SameSeries(a, b)
    ensures SignalOf(w, a, policy) == SignalOf(w, b, policy)
  {
    SameSeriesSameReadings(w, a, b);
    SameSeriesSameCodes(w, a, b, policy.minRepeats);
    var x, y := AllValues(w, a), AllValues(w, b);
    hide CodesOf, AllValues, LateOf, SameSeries, SameBags, Assemble;
    SameBagsSameNumbers(x, y, CodesOf(w, a, policy.minRepeats),
                        LateOf(w, a[0]) + LateOf(w, a[1]) + LateOf(w, a[2]) + LateOf(w, a[3]), policy);
  }

  lemma SameSeriesSameReadings(w: Window, a: seq<Option<Cell>>, b: seq<Option<Cell>>)
    requires SameSeries(a, b)
    ensures SameBags(AllValues(w, a), AllValues(w, b))
    ensures forall c :: 0 <= c < CELLS ==> LateOf(w, a[c]) == LateOf(w, b[c])
  {
    hide SameRepeats, ValuesOf, LateOf;
    SameCellSameReading(w, a[0], b[0]);
    SameCellSameReading(w, a[1], b[1]);
    SameCellSameReading(w, a[2], b[2]);
    SameCellSameReading(w, a[3], b[3]);
  }

  lemma SameCellSameReading(w: Window, a: Option<Cell>, b: Option<Cell>)
    requires a.None? <==> b.None?
    requires a.Some? ==> SameRepeats(a.value, b.value)
    ensures multiset(ValuesOf(w, a)) == multiset(ValuesOf(w, b)) && LateOf(w, a) == LateOf(w, b)
  {
    hide SameRepeats, Unique, ValuesIn, LateIn;
    if a.Some? {
      SameRepeatsSameFaults(w, 1, a.value, b.value);
    }
  }

  lemma SameBagsSameNumbers(x: seq<seq<real>>, y: seq<seq<real>>, codes: seq<Code>, late: nat, policy: Policy)
    requires SameBags(x, y)
    ensures Assemble(x, codes, late, policy) == Assemble(y, codes, late, policy)
  {
    SameBagsSameMeans(x, y);
    hide SameBags, MeanOf, Sum;
    if AllPresent(x) {
      SameBagsSameStability(x, y);
    }
    hide SignStable, Means;
  }

  lemma SameSeriesSameCodes(w: Window, a: seq<Option<Cell>>, b: seq<Option<Cell>>, minRepeats: nat)
    requires SameSeries(a, b)
    ensures CodesOf(w, a, minRepeats) == CodesOf(w, b, minRepeats)
  {
    FaultsCarryOver(w, a, b, minRepeats);
    assert SameSeries(b, a) by { SameSeriesSymmetric(a, b); }
    FaultsCarryOver(w, b, a, minRepeats);
    hide AnyFault, SameRepeats;
    assert forall c :: Applies(c, w, a, minRepeats) <==> Applies(c, w, b, minRepeats);
    CodesOfMeaning(w, a, minRepeats);
    CodesOfMeaning(w, b, minRepeats);
    hide CodesOf, Applies, InOrder;
    OrderedCodesAreOne(CodesOf(w, a, minRepeats), CodesOf(w, b, minRepeats));
  }

  lemma SameSeriesSymmetric(a: seq<Option<Cell>>, b: seq<Option<Cell>>)
    requires SameSeries(a, b)
    ensures SameSeries(b, a)
  {
    forall c | 0 <= c < CELLS && a[c].Some? ensures SameRepeats(b[c].value, a[c].value) {
      assert SameRepeats(a[c].value, b[c].value);
    }
  }

  lemma FaultsCarryOver(w: Window, a: seq<Option<Cell>>, b: seq<Option<Cell>>, minRepeats: nat)
    requires SameSeries(a, b)
    ensures forall f :: AnyFault(f, w, minRepeats, a) ==> AnyFault(f, w, minRepeats, b)
  {
    hide HasFault, SameRepeats;
    forall f | AnyFault(f, w, minRepeats, a) ensures AnyFault(f, w, minRepeats, b) {
      var x :| x in a && x.Some? && HasFault(f, w, minRepeats, x.value);
      var c :| 0 <= c < CELLS && a[c] == x;
      SameRepeatsSameFaults(w, minRepeats, a[c].value, b[c].value);
      assert b[c] in b;
    }
  }

  lemma {:induction false} FirstIsKept(e: Entry, rest: seq<Entry>)
    ensures e in FirstSeen([e] + rest)
  {
    if rest == [] {
      assert [e] + rest == [] + [e];
      FirstSeenOneMore([], e);
      NothingSeen();
    } else {
      var earlier, last := rest[..|rest| - 1], rest[|rest| - 1];
      assert [e] + rest == ([e] + earlier) + [last];
      FirstSeenOneMore([e] + earlier, last);
      FirstIsKept(e, earlier);
    }
  }

  /** The same repeats with `e` in front. */
  lemma ToFront(entries: seq<Entry>, e: Entry) returns (moved: seq<Entry>)
    requires e in entries
    ensures multiset(moved) == multiset(entries) && e in FirstSeen(moved)
  {
    var i :| 0 <= i < |entries| && entries[i] == e;
    var front, back := entries[..i], entries[i + 1..];
    assert entries == front + [e] + back;
    moved := [e] + (front + back);
    FirstIsKept(e, front + back);
  }

  /** With a clash, some order keeps other repeats. */
  lemma ClashHasAnotherOrder(entries: seq<Entry>) returns (moved: seq<Entry>)
    requires Conflict(entries)
    ensures multiset(moved) == multiset(entries) && multiset(FirstSeen(moved)) != multiset(FirstSeen(entries))
  {
    var a, b :| a in entries && b in entries && a.id == b.id && a != b;
    FirstSeenCovers(entries);
    var kept := FirstSeen(entries);
    OneOfTwo(kept, a, b);
    hide FirstSeen, Conflict;
    var missing := if a in kept then b else a;
    assert missing !in multiset(kept);
    moved := ToFront(entries, missing);
    assert missing in multiset(FirstSeen(moved));
  }

  lemma OneOfTwo(kept: seq<Entry>, a: Entry, b: Entry)
    requires IdsOnce(kept) && a.id == b.id && a != b
    ensures a !in kept || b !in kept
  {}

  /** For a cell with ids: every order of its repeats keeps the same repeats exactly when no id clashes. */
  lemma OrderIsIrrelevantIffNoClash(entries: seq<Entry>)
    ensures (forall moved :: multiset(moved) == multiset(entries) ==>
             multiset(FirstSeen(moved)) == multiset(FirstSeen(entries)))
       <==> !Conflict(entries)
  {
    if Conflict(entries) {
      var moved := ClashHasAnotherOrder(entries);
    } else {
      forall moved: seq<Entry> | multiset(moved) == multiset(entries)
        ensures multiset(FirstSeen(moved)) == multiset(FirstSeen(entries))
      {
        MultisetTellsMembers(moved, entries);
        SameRepeatsUnique(Cell(moved, true), Cell(entries, true));
      }
    }
  }

  lemma OnlyTheFirstIsRead(w: Window, id: string, u: real, v: real, at: int)
    requires u != v && Representable(Finite(u)) && Representable(Finite(v)) && InWindow(w, at)
    ensures var a, b := Entry(id, Finite(u), at), Entry(id, Finite(v), at);
            Conflict([a, b]) && ValuesIn(w, FirstSeen([a, b])) == [u]
  {
    var a, b := Entry(id, Finite(u), at), Entry(id, Finite(v), at);
    assert a in [a, b] && b in [a, b] && a != b;
    FirstOfTwo(a, b);
    assert [a][..0] == [];
    assert ValuesIn(w, [a]) == [] + [u];
  }

  /** The clash reaches the lift: with two values under one id in the treatment baseline, exchanging them moves the
      reported lift by their difference, although both signals carry the code for it. */
  lemma ClashMovesTheLift(w: Window, id: string, u: real, v: real, at: int, others: seq<Option<Cell>>, policy: Policy)
    requires u != v && Representable(Finite(u)) && Representable(Finite(v)) && InWindow(w, at)
    requires |others| == 3 && forall i :: 0 <= i < 3 ==> ValuesOf(w, others[i]) != []
    ensures var a, b := Entry(id, Finite(u), at), Entry(id, Finite(v), at);
            var s := SignalOf(w, [Some(Cell([a, b], true))] + others, policy);
            var t := SignalOf(w, [Some(Cell([b, a], true))] + others, policy);
            && s.net.Some? && t.net.Some? && t.net.value == s.net.value + (u - v)
            && DuplicateObservationConflict in s.codes && DuplicateObservationConflict in t.codes
  {
    var a, b := Entry(id, Finite(u), at), Entry(id, Finite(v), at);
    OnlyTheFirstIsRead(w, id, u, v, at);
    OnlyTheFirstIsRead(w, id, v, u, at);
    var s, t := [Some(Cell([a, b], true))] + others, [Some(Cell([b, a], true))] + others;
    ClashIsCoded(w, s, policy.minRepeats);
    ClashIsCoded(w, t, policy.minRepeats);
    hide CodesOf, ValuesIn, FirstSeen, SignStable, Conflict;
    MeanOfOne(u);
    MeanOfOne(v);
    hide Mean;
  }

  lemma MeanOfOne(v: real)
    ensures Mean([v]) == v
  {
    assert Sum([v]) == Sum([]) + v;
  }

  lemma ClashIsCoded(w: Window, series: seq<Option<Cell>>, minRepeats: nat)
    requires |series| == CELLS && series[0].Some? && series[0].value.hasIds && Conflict(series[0].value.entries)
    ensures DuplicateObservationConflict in CodesOf(w, series, minRepeats)
  {
    hide CodesOf, InOrder, Conflict;
    assert series[0] in series && HasFault(Clash, w, minRepeats, series[0].value);
    assert AnyFault(Clash, w, minRepeats, series);
    hide AnyFault;
    assert Applies(DuplicateObservationConflict, w, series, minRepeats);
    hide Applies;
    CodesOfMeaning(w, series, minRepeats);
  }

  lemma FirstOfTwo(a: Entry, b: Entry)
    requires a.id == b.id
    ensures FirstSeen([a, b]) == [a]
  {
    FirstSeenOneMore([], a);
    FirstSeenOneMore([a], b);
    assert [] + [a] == [a] && [a] + [b] == [a, b];
    assert a in [a];
  }
}

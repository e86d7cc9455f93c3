/**
 * Difference in differences per signal: deduplicate repeats, keep those in the window, take the four exact means,
 * subtract, and check that the sign survives leaving out any one repeat. Fractions are exact reals.
 */
module DiD {
  import opened Common

  /** A float: an exact value, or one that `math.isfinite` refuses. */
  datatype Number = Finite(value: real) | Infinite(positive: bool) | NaN

  const MAGNITUDE_LIMIT: real := 1000000000000000000.0

  /** One repeat: its observation id, value and timestamp. */
  datatype Entry = Entry(id: string, value: Number, at: int)

  /** One cell: its repeats, and whether they carry observation ids. */
  datatype Cell = Cell(entries: seq<Entry>, hasIds: bool)

  datatype Window = Window(start: Option<int>, end: Option<int>)

  // --------------------------------------------------------- deduplication

  function Ids(entries: seq<Entry>): set<string> {
    set e | e in entries :: e.id
  }

  /** The repeats whose id is seen for the first time. */
  function FirstSeen(entries: seq<Entry>): seq<Entry> {
    if entries == [] then [] else
      var earlier, last := entries[..|entries| - 1], entries[|entries| - 1];
      if last.id in Ids(earlier) then FirstSeen(earlier) else FirstSeen(earlier) + [last]
  }

  lemma IdsOneMore(entries: seq<Entry>, e: Entry)
    ensures Ids(entries + [e]) == Ids(entries) + {e.id}
  {
    assert forall x :: x in entries + [e] <==> x in entries || x == e;
  }

  /** Every id is kept once, with one of its repeats. */
  lemma {:induction false} FirstSeenCovers(entries: seq<Entry>)
    ensures Ids(FirstSeen(entries)) == Ids(entries)
    ensures forall e :: e in FirstSeen(entries) ==> e in entries
    ensures IdsOnce(FirstSeen(entries))
  {
    if entries != [] {
      var earlier, last := entries[..|entries| - 1], entries[|entries| - 1];
      FirstSeenCovers(earlier);
      assert entries == earlier + [last];
      IdsOneMore(earlier, last);
      IdsOneMore(FirstSeen(earlier), last);
      if last.id !in Ids(earlier) {
        IdsOnceOneMore(FirstSeen(earlier), last);
      }
      hide IdsOnce, Ids;
    }
  }

  lemma FirstSeenOneMore(entries: seq<Entry>, e: Entry)
    ensures FirstSeen(entries + [e]) == if e.id in Ids(entries) then FirstSeen(entries) else FirstSeen(entries) + [e]
  {
    assert (entries + [e])[..|entries|] == entries;
  }

  lemma NothingSeen()
    ensures FirstSeen([]) == [] && !Conflict([]) && Ids([]) == {}
  {}

  lemma IdsOnceOneMore(entries: seq<Entry>, e: Entry)
    requires IdsOnce(entries) && e.id !in Ids(entries)
    ensures IdsOnce(entries + [e])
  {
    assert forall i :: 0 <= i < |entries| ==> entries[i] in entries && entries[i].id in Ids(entries);
  }

  /** Two repeats with one id and different content. */
  ghost predicate Conflict(entries: seq<Entry>) {
    exists a, b :: a in entries && b in entries && a.id == b.id && a != b
  }

  ghost predicate IdsOnce(entries: seq<Entry>) {
    forall i, j :: 0 <= i < j < |entries| ==> entries[i].id != entries[j].id
  }

  /** Without conflict, what remains is each different repeat exactly once. */
  lemma UniqueIsTheSet(entries: seq<Entry>)
    requires !Conflict(entries)
    ensures multiset(FirstSeen(entries)) == multiset(set e | e in entries)
  {
    var unique := FirstSeen(entries);
    FirstSeenCovers(entries);
    forall e | e in entries ensures e in unique {
      assert e.id in Ids(unique);
      var u :| u in unique && u.id == e.id;
    }
    DistinctSeq(unique);
    assert (set e | e in entries) == (set e | e in unique);
  }

  lemma {:induction false} DistinctSeq(entries: seq<Entry>)
    requires IdsOnce(entries)
    ensures multiset(entries) == multiset(set e | e in entries)
  {
    if entries != [] {
      var earlier, last := entries[..|entries| - 1], entries[|entries| - 1];
      DistinctSeq(earlier);
      assert entries == earlier + [last];
      assert last !in earlier;
      assert (set e | e in entries) == (set e | e in earlier) + {last};
    } else {
      assert (set e | e in entries) == {};
    }
  }

  /** `_dedupe_repeats` */
  method DedupeRepeats(cell: Cell) returns (unique: seq<Entry>, conflict: bool)
    ensures unique == if cell.hasIds then FirstSeen(cell.entries) else cell.entries
    ensures conflict <==> cell.hasIds && Conflict(cell.entries)
  {
    hide Conflict, FirstSeen;
    if !cell.hasIds {
      return cell.entries, false;
    }
    NothingSeen();
    var seen: map<string, Entry> := map[];
    unique, conflict := [], false;
    for i := 0 to |cell.entries|
      invariant unique == FirstSeen(cell.entries[..i])
      invariant seen.Keys == Ids(cell.entries[..i])
      invariant forall id :: id in seen ==> seen[id] in unique && seen[id].id == id
      invariant conflict <==> Conflict(cell.entries[..i])
    {
      var e := cell.entries[i];
      assert cell.entries[..i + 1] == cell.entries[..i] + [e];
      IdsOneMore(cell.entries[..i], e);
      FirstSeenOneMore(cell.entries[..i], e);
      hide Ids;
      if e.id in seen {
        ConflictStep(cell.entries[..i], e, seen[e.id]);
        if seen[e.id] != e {
          conflict := true;
        }
      } else {
        NewIdIsNoConflict(cell.entries[..i], e);
        seen := seen[e.id := e];
        unique := unique + [e];
      }
    }
    assert cell.entries[..|cell.entries|] == cell.entries;
  }

  /** A repeat of a known id conflicts exactly when it differs from the one seen first, or there is a conflict
      already. */
  lemma ConflictStep(entries: seq<Entry>, e: Entry, first: Entry)
    requires first in FirstSeen(entries) && first.id == e.id
    ensures Conflict(entries + [e]) <==> Conflict(entries) || first != e
  {
    FirstSeenCovers(entries);
    assert forall x :: x in entries + [e] <==> x in entries || x == e;
    if Conflict(entries + [e]) && !Conflict(entries) {
      var a, b :| a in entries + [e] && b in entries + [e] && a.id == b.id && a != b;
      var other := if a == e then b else a;
      assert other in entries && other.id == first.id;
      assert other == first;
    }
    if first != e {
      assert first in entries + [e] && e in entries + [e];
    }
    if Conflict(entries) {
      var a, b :| a in entries && b in entries && a.id == b.id && a != b;
      assert a in entries + [e] && b in entries + [e];
    }
  }

  lemma NewIdIsNoConflict(entries: seq<Entry>, e: Entry)
    requires e.id !in Ids(entries)
    ensures Conflict(entries + [e]) <==> Conflict(entries)
  {
    assert forall x :: x in entries + [e] <==> x in entries || x == e;
    assert forall x :: x in entries ==> x.id in Ids(entries);
  }

  // ------------------------------------------------------------ the window

  predicate InWindow(w: Window, at: int) {
    (w.start.Some? ==> at >= w.start.value) && (w.end.Some? ==> at <= w.end.value)
  }

  predicate Representable(v: Number) {
    v.Finite? && -MAGNITUDE_LIMIT < v.value < MAGNITUDE_LIMIT
  }

  /** The values used, in order. */
  function ValuesIn(w: Window, entries: seq<Entry>): seq<real> {
    if entries == [] then [] else
      var earlier, last := ValuesIn(w, entries[..|entries| - 1]), entries[|entries| - 1];
      if Representable(last.value) && InWindow(w, last.at) then earlier + [last.value.value] else earlier
  }

  function LateIn(w: Window, entries: seq<Entry>): nat {
    if entries == [] then 0 else
      var last := entries[|entries| - 1];
      LateIn(w, entries[..|entries| - 1]) + (if Representable(last.value) && !InWindow(w, last.at) then 1 else 0)
  }

  predicate AnyNonFinite(entries: seq<Entry>) {
    exists e :: e in entries && !e.value.Finite?
  }

  predicate AnyNonRepresentable(entries: seq<Entry>) {
    exists e :: e in entries && e.value.Finite? && !Representable(e.value)
  }

  /** `_partition_in_window` */
  method PartitionInWindow(entries: seq<Entry>, w: Window)
    returns (values: seq<real>, late: nat, nonFinite: bool, nonRepresentable: bool)
    ensures values == ValuesIn(w, entries)
    ensures late == LateIn(w, entries)
    ensures nonFinite == AnyNonFinite(entries)
    ensures nonRepresentable == AnyNonRepresentable(entries)
  {
    values, late, nonFinite, nonRepresentable := [], 0, false, false;
    for i := 0 to |entries|
      invariant values == ValuesIn(w, entries[..i])
      invariant late == LateIn(w, entries[..i])
      invariant nonFinite == AnyNonFinite(entries[..i])
      invariant nonRepresentable == AnyNonRepresentable(entries[..i])
    {
      var e := entries[i];
      assert entries[..i + 1][..i] == entries[..i];
      assert entries[..i + 1] == entries[..i] + [e];
      if !e.value.Finite? {
        nonFinite := true;
        continue;
      }
      if e.value.value >= MAGNITUDE_LIMIT || -e.value.value >= MAGNITUDE_LIMIT {
        nonRepresentable := true;
        continue;
      }
      if w.start.Some? && e.at < w.start.value {
        late := late + 1;
        continue;
      }
      if w.end.Some? && e.at > w.end.value {
        late := late + 1;
        continue;
      }
      values := values + [e.value.value];
    }
    assert entries[..|entries|] == entries;
  }

  // ------------------------------------------------------------------ means

  function Sum(values: seq<real>): real {
    if values == [] then 0.0 else Sum(values[..|values| - 1]) + values[|values| - 1]
  }

  function Mean(values: seq<real>): real
    requires values != []
  {
    Sum(values) / (|values| as real)
  }

  function Sign(x: real): int {
    if x > 0.0 then 1 else if x < 0.0 then -1 else 0
  }

  function Without(values: seq<real>, i: nat): seq<real>
    requires i < |values|
  {
    values[..i] + values[i + 1..]
  }

  lemma {:induction false} SumConcat(a: seq<real>, b: seq<real>)
    ensures Sum(a + b) == Sum(a) + Sum(b)
  {
    if b == [] {
      assert a + b == a;
    } else {
      assert (a + b)[..|a + b| - 1] == a + b[..|b| - 1];
      SumConcat(a, b[..|b| - 1]);
    }
  }

  lemma SumWithout(values: seq<real>, i: nat)
    requires i < |values|
    ensures Sum(Without(values, i)) == Sum(values) - values[i]
    ensures |Without(values, i)| == |values| - 1
    ensures multiset(Without(values, i)) == multiset(values) - multiset{values[i]}
  {
    SumConcat(values[..i], values[i + 1..]);
    SumConcat(values[..i], [values[i]]);
    SumConcat(values[..i] + [values[i]], values[i + 1..]);
    assert values == values[..i] + [values[i]] + values[i + 1..];
    assert Sum([values[i]]) == values[i];
  }

  /** The sum depends on the repeats, not on their order. */
  lemma {:induction false} SumOfPermutation(a: seq<real>, b: seq<real>)
    requires multiset(a) == multiset(b)
    ensures Sum(a) == Sum(b) && |a| == |b|
    decreases |a|
  {
    assert |a| == |multiset(a)| && |b| == |multiset(b)|;
    if a != [] {
      var earlier, last := a[..|a| - 1], a[|a| - 1];
      assert a == earlier + [last];
      assert last in multiset(b);
      var i :| 0 <= i < |b| && b[i] == last;
      SumWithout(b, i);
      assert multiset(earlier) == multiset(a) - multiset{last};
      SumOfPermutation(earlier, Without(b, i));
    }
  }

  // ------------------------------------------------------------ one signal

  /** The four cells in the order baseline treatment, post treatment, baseline control, post control. */
  const CELLS: nat := 4
  const BASELINE_TREATMENT: nat := 0
  const POST_TREATMENT: nat := 1
  const BASELINE_CONTROL: nat := 2
  const POST_CONTROL: nat := 3

  datatype Code =
    | InsufficientRepeats | MissingBaseline | MissingControl | MissingPost
    | NonFiniteValue | NonRepresentableMagnitude | DuplicateObservationConflict

  datatype SignalDiD = SignalDiD(
    treatmentDelta: Option<real>,
    controlDelta: Option<real>,
    net: Option<real>,
    sampleCounts: seq<nat>,
    codes: seq<Code>,
    excludedLate: nat,
    signStable: Option<bool>,
    margin: Option<real>,
    meetsThreshold: Option<bool>)

  datatype Policy = Policy(minRepeats: nat, effectThreshold: real)

  function Unique(cell: Cell): seq<Entry> {
    if cell.hasIds then FirstSeen(cell.entries) else cell.entries
  }

  function ValuesOf(w: Window, cell: Option<Cell>): seq<real> {
    if cell.None? then [] else ValuesIn(w, Unique(cell.value))
  }

  function LateOf(w: Window, cell: Option<Cell>): nat {
    if cell.None? then 0 else LateIn(w, Unique(cell.value))
  }

  function MeanOf(values: seq<real>): Option<real> {
    if values == [] then None else Some(Mean(values))
  }

  function ArmDelta(post: Option<real>, baseline: Option<real>): Option<real> {
    if post.None? || baseline.None? then None else Some(post.value - baseline.value)
  }

  function NetOf(means: seq<real>): real
    requires |means| == CELLS
  {
    (means[POST_TREATMENT] - means[BASELINE_TREATMENT]) - (means[POST_CONTROL] - means[BASELINE_CONTROL])
  }

  predicate AllPresent(cells: seq<seq<real>>) {
    |cells| == CELLS && forall c :: 0 <= c < CELLS ==> cells[c] != []
  }

  function Means(cells: seq<seq<real>>): seq<real>
    requires AllPresent(cells)
  {
    [Mean(cells[0]), Mean(cells[1]), Mean(cells[2]), Mean(cells[3])]
  }

  function NetWithout(cells: seq<seq<real>>, c: nat, i: nat): real
    requires AllPresent(cells) && c < CELLS && i < |cells[c]| && |cells[c]| >= 2
  {
    NetOf(Means(cells)[c := Mean(Without(cells[c], i))])
  }

  /** The sign of the lift survives leaving out any one repeat of any cell that has another. */
  ghost predicate SignStable(cells: seq<seq<real>>)
    requires AllPresent(cells)
  {
    forall c: nat, i: nat :: c < CELLS && i < |cells[c]| && |cells[c]| >= 2 ==>
      Sign(NetWithout(cells, c, i)) == Sign(NetOf(Means(cells)))
  }

  /** What can be wrong with one cell. */
  datatype Fault = Few | NonFinite | NonRepresentable | Clash

  ghost predicate HasFault(f: Fault, w: Window, minRepeats: nat, cell: Cell) {
    match f
    case Few => |ValuesIn(w, Unique(cell))| < minRepeats
    case NonFinite => AnyNonFinite(Unique(cell))
    case NonRepresentable => AnyNonRepresentable(Unique(cell))
    case Clash => cell.hasIds && Conflict(cell.entries)
  }

  ghost predicate AnyFault(f: Fault, w: Window, minRepeats: nat, series: seq<Option<Cell>>) {
    exists c :: c in series && c.Some? && HasFault(f, w, minRepeats, c.value)
  }

  /** What each code says of a signal. */
  ghost predicate Applies(c: Code, w: Window, series: seq<Option<Cell>>, minRepeats: nat)
    requires |series| == CELLS
  {
    match c
    case InsufficientRepeats => AnyFault(Few, w, minRepeats, series)
    case MissingBaseline => series[BASELINE_TREATMENT].None?
    case MissingControl => series[BASELINE_CONTROL].None? || series[POST_CONTROL].None?
    case MissingPost => series[POST_TREATMENT].None? || series[POST_CONTROL].None?
    case NonFiniteValue => AnyFault(NonFinite, w, minRepeats, series)
    case NonRepresentableMagnitude => AnyFault(NonRepresentable, w, minRepeats, series)
    case DuplicateObservationConflict => AnyFault(Clash, w, minRepeats, series)
  }

  /** The order in which codes are first recorded. */
  const CODE_ORDER: seq<Code> := [InsufficientRepeats, MissingBaseline, MissingControl, MissingPost,
                                  NonFiniteValue, NonRepresentableMagnitude, DuplicateObservationConflict]

  function Rank(c: Code): nat {
    match c
    case InsufficientRepeats => 0
    case MissingBaseline => 1
    case MissingControl => 2
    case MissingPost => 3
    case NonFiniteValue => 4
    case NonRepresentableMagnitude => 5
    case DuplicateObservationConflict => 6
  }

  predicate InOrder(codes: seq<Code>) {
    forall i, j :: 0 <= i < j < |codes| ==> Rank(codes[i]) < Rank(codes[j])
  }

  ghost function Applying(w: Window, series: seq<Option<Cell>>, minRepeats: nat, order: seq<Code>): seq<Code>
    requires |series| == CELLS
  {
    if order == [] then []
    else
      (if Applies(order[0], w, series, minRepeats) then [order[0]] else [])
      + Applying(w, series, minRepeats, order[1..])
  }

  /** The codes of a signal. */
  ghost function CodesOf(w: Window, series: seq<Option<Cell>>, minRepeats: nat): seq<Code>
    requires |series| == CELLS
  {
    Applying(w, series, minRepeats, CODE_ORDER)
  }

  lemma {:induction false} ApplyingMeaning(w: Window, series: seq<Option<Cell>>, minRepeats: nat, order: seq<Code>)
    requires |series| == CELLS && InOrder(order)
    ensures forall c :: c in Applying(w, series, minRepeats, order) <==> c in order && Applies(c, w, series, minRepeats)
    ensures InOrder(Applying(w, series, minRepeats, order))
  {
    hide Applies, Rank;
    if order != [] {
      var rest := Applying(w, series, minRepeats, order[1..]);
      ApplyingMeaning(w, series, minRepeats, order[1..]);
      assert order == [order[0]] + order[1..];
      forall j | 0 <= j < |rest| ensures Rank(order[0]) < Rank(rest[j]) {
        assert rest[j] in order[1..];
      }
    }
  }

  lemma EveryCodeIsOrdered()
    ensures InOrder(CODE_ORDER) && forall c: Code :: c in CODE_ORDER
  {
    forall c: Code ensures c in CODE_ORDER {
      assert CODE_ORDER[Rank(c)] == c;
    }
  }

  lemma CodesOfMeaning(w: Window, series: seq<Option<Cell>>, minRepeats: nat)
    requires |series| == CELLS
    ensures forall c :: c in CodesOf(w, series, minRepeats) <==> Applies(c, w, series, minRepeats)
    ensures InOrder(CodesOf(w, series, minRepeats))
    ensures CodesOf(w, series, minRepeats) == [] <==> forall c :: !Applies(c, w, series, minRepeats)
  {
    EveryCodeIsOrdered();
    hide Applies, InOrder, CODE_ORDER;
    ApplyingMeaning(w, series, minRepeats, CODE_ORDER);
    NoCodeInNone(CodesOf(w, series, minRepeats));
  }

  lemma NoCodeInNone(codes: seq<Code>)
    ensures codes == [] <==> forall c :: c !in codes
  {
    assert |codes| > 0 ==> codes[0] in codes;
  }

  /** The codes that apply, and their order, leave only one list. */
  lemma {:induction false} OrderedCodesAreOne(a: seq<Code>, b: seq<Code>)
    requires InOrder(a) && InOrder(b) && forall c :: c in a <==> c in b
    ensures a == b
  {
    hide Rank;
    NoCodeInNone(a);
    NoCodeInNone(b);
    if a != [] {
      SameFirst(a, b);
      hide InOrder;
      OrderedCodesAreOne(a[1..], b[1..]);
      assert a == [a[0]] + a[1..] && b == [b[0]] + b[1..];
    }
  }

  lemma SameFirst(a: seq<Code>, b: seq<Code>)
    requires InOrder(a) && InOrder(b) && (forall c :: c in a <==> c in b) && a != []
    ensures b != [] && a[0] == b[0]
    ensures InOrder(a[1..]) && InOrder(b[1..]) && forall c :: c in a[1..] <==> c in b[1..]
  {
    hide Rank;
    assert a[0] in b && b[0] in a;
    FirstIsLeast(a, b[0]);
    FirstIsLeast(b, a[0]);
    RestIsBeyond(a);
    RestIsBeyond(b);
  }

  lemma FirstIsLeast(a: seq<Code>, c: Code)
    requires InOrder(a) && c in a
    ensures c == a[0] || Rank(a[0]) < Rank(c)
  {
    hide Rank;
  }

  lemma RestIsBeyond(a: seq<Code>)
    requires InOrder(a) && a != []
    ensures InOrder(a[1..]) && forall c :: c in a[1..] <==> c in a && c != a[0]
  {
    hide Rank;
    assert forall i :: 0 < i < |a| ==> a[i] == a[1..][i - 1] && a[0] != a[i];
  }

  function AllValues(w: Window, series: seq<Option<Cell>>): seq<seq<real>>
    requires |series| == CELLS
  {
    [ValuesOf(w, series[0]), ValuesOf(w, series[1]), ValuesOf(w, series[2]), ValuesOf(w, series[3])]
  }

  function AbsReal(x: real): real {
    if x < 0.0 then -x else x
  }

  /** What the numbers of a signal are, given its values, its codes and its late count. */
  ghost function Assemble(cells: seq<seq<real>>, codes: seq<Code>, late: nat, policy: Policy): SignalDiD
    requires |cells| == CELLS
  {
    var treatment := ArmDelta(MeanOf(cells[POST_TREATMENT]), MeanOf(cells[BASELINE_TREATMENT]));
    var control := ArmDelta(MeanOf(cells[POST_CONTROL]), MeanOf(cells[BASELINE_CONTROL]));
    var net := if treatment.Some? && control.Some? then Some(treatment.value - control.value) else None;
    var judged := net.Some? && codes == [] && AllPresent(cells);
    SignalDiD(
      treatment, control, net,
      [|cells[0]|, |cells[1]|, |cells[2]|, |cells[3]|],
      codes, late,
      if judged then Some(SignStable(cells)) else None,
      if judged then Some(AbsReal(net.value) - policy.effectThreshold) else None,
      if judged then Some(AbsReal(net.value) >= policy.effectThreshold) else None)
  }

  ghost function SignalOf(w: Window, series: seq<Option<Cell>>, policy: Policy): SignalDiD
    requires |series| == CELLS
  {
    Assemble(AllValues(w, series), CodesOf(w, series, policy.minRepeats),
             LateOf(w, series[0]) + LateOf(w, series[1]) + LateOf(w, series[2]) + LateOf(w, series[3]), policy)
  }

  // --------------------------------------------------------------- program

  /** `_leave_one_out_sign_stable` */
  method LeaveOneOutSignStable(cells: seq<seq<real>>) returns (stable: bool)
    requires AllPresent(cells)
    ensures stable <==> SignStable(cells)
  {
    var means := Means(cells);
    var fullSign := Sign(NetOf(means));
    for c := 0 to CELLS
      invariant forall d: nat, i: nat :: d < c && i < |cells[d]| && |cells[d]| >= 2 ==>
                  Sign(NetWithout(cells, d, i)) == fullSign
    {
      if |cells[c]| <= 1 {
        continue;
      }
      for i := 0 to |cells[c]|
        invariant forall k: nat :: k < i ==> Sign(NetWithout(cells, c, k)) == fullSign
      {
        var reduced := cells[c][..i] + cells[c][i + 1..];
        var net := NetOf(means[c := Mean(reduced)]);
        assert net == NetWithout(cells, c, i);
        if Sign(net) != fullSign {
          return false;
        }
      }
    }
    stable := true;
  }

  /** The four faults found so far. */
  datatype Faults = Faults(few: bool, nonFinite: bool, nonRepresentable: bool, clash: bool) {
    predicate Has(f: Fault) {
      match f
      case Few => few
      case NonFinite => nonFinite
      case NonRepresentable => nonRepresentable
      case Clash => clash
    }
  }

  /** The part of the loop of `_compute_signal` that reads one present cell. */
  method ReadCell(w: Window, cell: Cell, minRepeats: nat, before: Faults)
      returns (values: seq<real>, late: nat, faults: Faults)
    ensures values == ValuesIn(w, Unique(cell)) && late == LateIn(w, Unique(cell))
    ensures forall f :: faults.Has(f) <==> before.Has(f) || HasFault(f, w, minRepeats, cell)
  {
    hide ValuesIn, LateIn, AnyNonFinite, AnyNonRepresentable, Conflict, FirstSeen;
    var unique, conflict := DedupeRepeats(cell);
    var nf, nr;
    values, late, nf, nr := PartitionInWindow(unique, w);
    faults := Faults(before.few || |values| < minRepeats, before.nonFinite || nf, before.nonRepresentable
                     || nr, before.clash || conflict);
  }

  /** `_compute_signal`, before the results are rounded */
  method ComputeSignal(w: Window, series: seq<Option<Cell>>, policy: Policy) returns (result: SignalDiD)
    requires |series| == CELLS && policy.minRepeats > 0
    ensures result == SignalOf(w, series, policy)
  {
    hide AnyFault, HasFault, LateSum, ValuesIn, LateIn, Assemble, CodesOf, Applies, InOrder;
    var cells: seq<seq<real>> := [];
    var late := 0;
    var faults := Faults(false, false, false, false);
    NoFaultYet(w, policy.minRepeats);
    for c := 0 to CELLS
      invariant |cells| == c
      invariant forall d :: 0 <= d < c ==> cells[d] == ValuesOf(w, series[d])
      invariant late == LateSum(w, series[..c])
      invariant forall f :: faults.Has(f) <==> AnyFault(f, w, policy.minRepeats, series[..c])
    {
      assert series[..c + 1] == series[..c] + [series[c]];
      AnyFaultOneMore(w, policy.minRepeats, series[..c], series[c]);
      LateSumOneMore(w, series[..c], series[c]);
      if series[c].None? {
        cells := cells + [[]];
        continue;
      }
      var values, out;
      values, out, faults := ReadCell(w, series[c].value, policy.minRepeats, faults);
      late := late + out;
      cells := cells + [values];
    }
    assert series[..CELLS] == series;
    LateSumAll(w, series);
    var codes := ListCodes(w, series, policy.minRepeats, faults);
    CodesOfMeaning(w, series, policy.minRepeats);
    OrderedCodesAreOne(codes, CodesOf(w, series, policy.minRepeats));
    assert cells == AllValues(w, series);
    SufficientHasAllMeans(w, series, policy.minRepeats);
    hide AllValues, ValuesOf;
    result := Judge(cells, codes, late, policy);
  }

  lemma NoFaultYet(w: Window, minRepeats: nat)
    ensures forall f :: !AnyFault(f, w, minRepeats, [])
    ensures LateSum(w, []) == 0
  {}

  /** The codes: exactly those that apply, each once, in the order of first recording. */
  method ListCodes(w: Window, series: seq<Option<Cell>>, minRepeats: nat, faults: Faults) returns (codes: seq<Code>)
    requires |series| == CELLS
    requires forall f :: faults.Has(f) <==> AnyFault(f, w, minRepeats, series)
    ensures forall c :: c in codes <==> Applies(c, w, series, minRepeats)
    ensures InOrder(codes)
  {
    AppliesIs(w, series, minRepeats, faults);
    RanksFollow();
    hide Applies, Rank, Listed, InOrder, AnyFault;
    NothingListed(w, series, minRepeats);
    codes := Append([], faults.few, InsufficientRepeats, w, series, minRepeats);
    codes := Append(codes, series[BASELINE_TREATMENT].None?, MissingBaseline, w, series, minRepeats);
    codes := Append(codes, series[BASELINE_CONTROL].None?
                    || series[POST_CONTROL].None?, MissingControl, w, series, minRepeats);
    codes := Append(codes, series[POST_TREATMENT].None?
                    || series[POST_CONTROL].None?, MissingPost, w, series, minRepeats);
    codes := Append(codes, faults.nonFinite, NonFiniteValue, w, series, minRepeats);
    codes := Append(codes, faults.nonRepresentable, NonRepresentableMagnitude, w, series, minRepeats);
    codes := Append(codes, faults.clash, DuplicateObservationConflict, w, series, minRepeats);
    AllListed(codes, w, series, minRepeats);
  }

  /** `if due: codes.append(next)` */
  method Append(codes: seq<Code>, due: bool, next: Code, ghost w: Window, ghost series: seq<Option<Cell>>,
                ghost minRepeats: nat)
    returns (longer: seq<Code>)
    requires |series| == CELLS && Listed(codes, Rank(next), w, series, minRepeats)
    requires due == Applies(next, w, series, minRepeats)
    ensures Listed(longer, Rank(next) + 1, w, series, minRepeats)
  {
    hide Applies, Rank, Listed;
    ListOne(codes, next, w, series, minRepeats);
    longer := codes;
    if due {
      longer := longer + [next];
    }
  }

  /** The codes of rank below `k` that apply are listed, in order. */
  ghost predicate Listed(codes: seq<Code>, k: nat, w: Window, series: seq<Option<Cell>>, minRepeats: nat)
    requires |series| == CELLS
  {
    (forall c :: c in codes <==> Rank(c) < k && Applies(c, w, series, minRepeats)) && InOrder(codes)
  }

  lemma NothingListed(w: Window, series: seq<Option<Cell>>, minRepeats: nat)
    requires |series| == CELLS
    ensures Listed([], 0, w, series, minRepeats) && Rank(InsufficientRepeats) == 0
  {}

  lemma ListOne(codes: seq<Code>, next: Code, w: Window, series: seq<Option<Cell>>, minRepeats: nat)
    requires |series| == CELLS && Listed(codes, Rank(next), w, series, minRepeats)
    ensures Listed(if Applies(next, w, series, minRepeats) then codes + [next]
                   else codes, Rank(next) + 1, w, series, minRepeats)
  {
    hide Applies;
    forall c ensures c == next <==> Rank(c) == Rank(next) {}
    assert forall i :: 0 <= i < |codes| ==> codes[i] in codes;
  }

  lemma RanksFollow()
    ensures Rank(MissingBaseline) == Rank(InsufficientRepeats) + 1 && Rank(MissingControl) == Rank(MissingBaseline) + 1
    ensures Rank(MissingPost) == Rank(MissingControl) + 1 && Rank(NonFiniteValue) == Rank(MissingPost) + 1
    ensures Rank(NonRepresentableMagnitude) == Rank(NonFiniteValue) + 1
    ensures Rank(DuplicateObservationConflict) == Rank(NonRepresentableMagnitude) + 1
  {}

  lemma AllListed(codes: seq<Code>, w: Window, series: seq<Option<Cell>>, minRepeats: nat)
    requires |series| == CELLS && Listed(codes, Rank(DuplicateObservationConflict) + 1, w, series, minRepeats)
    ensures (forall c :: c in codes <==> Applies(c, w, series, minRepeats)) && InOrder(codes)
  {
    hide Applies;
  }

  lemma AppliesIs(w: Window, series: seq<Option<Cell>>, minRepeats: nat, faults: Faults)
    requires |series| == CELLS
    requires forall f :: faults.Has(f) <==> AnyFault(f, w, minRepeats, series)
    ensures faults.few == Applies(InsufficientRepeats, w, series, minRepeats)
    ensures series[BASELINE_TREATMENT].None? == Applies(MissingBaseline, w, series, minRepeats)
    ensures (series[BASELINE_CONTROL].None? || series[POST_CONTROL].None?)
            == Applies(MissingControl, w, series, minRepeats)
    ensures (series[POST_TREATMENT].None? || series[POST_CONTROL].None?) == Applies(MissingPost, w, series, minRepeats)
    ensures faults.nonFinite == Applies(NonFiniteValue, w, series, minRepeats)
    ensures faults.nonRepresentable == Applies(NonRepresentableMagnitude, w, series, minRepeats)
    ensures faults.clash == Applies(DuplicateObservationConflict, w, series, minRepeats)
  {
    hide AnyFault;
    assert faults.few == faults.Has(Few) && faults.nonFinite == faults.Has(NonFinite)
        && faults.nonRepresentable == faults.Has(NonRepresentable) && faults.clash == faults.Has(Clash);
  }

  /** The deltas, and the judgement of a signal that carries no code. */
  method Judge(cells: seq<seq<real>>, codes: seq<Code>, late: nat, policy: Policy) returns (result: SignalDiD)
    requires |cells| == CELLS
    requires codes == [] ==> AllPresent(cells)
    ensures result == Assemble(cells, codes, late, policy)
  {
    hide SignStable, Mean;
    var treatment := ArmDelta(MeanOf(cells[POST_TREATMENT]), MeanOf(cells[BASELINE_TREATMENT]));
    var control := ArmDelta(MeanOf(cells[POST_CONTROL]), MeanOf(cells[BASELINE_CONTROL]));
    var net := None;
    if treatment.Some? && control.Some? {
      net := Some(treatment.value - control.value);
    }
    var stable, margin, meets := None, None, None;
    if net.Some? && codes == [] {
      var s := LeaveOneOutSignStable(cells);
      stable := Some(s);
      margin := Some(AbsReal(net.value) - policy.effectThreshold);
      meets := Some(AbsReal(net.value) >= policy.effectThreshold);
    }
    result := SignalDiD(treatment, control, net, [|cells[0]|, |cells[1]|, |cells[2]|, |cells[3]|], codes, late, stable,
                        margin, meets);
  }

  ghost function LateSum(w: Window, series: seq<Option<Cell>>): nat {
    if series == [] then 0 else LateSum(w, series[..|series| - 1]) + LateOf(w, series[|series| - 1])
  }

  lemma LateSumOneMore(w: Window, series: seq<Option<Cell>>, c: Option<Cell>)
    ensures LateSum(w, series + [c]) == LateSum(w, series) + LateOf(w, c)
  {
    assert (series + [c])[..|series|] == series;
  }

  lemma LateSumAll(w: Window, series: seq<Option<Cell>>)
    requires |series| == CELLS
    ensures LateSum(w, series) == LateOf(w, series[0]) + LateOf(w, series[1]) + LateOf(w, series[2])
            + LateOf(w, series[3])
  {
    LateSumOneMore(w, [], series[0]);
    LateSumOneMore(w, [series[0]], series[1]);
    LateSumOneMore(w, [series[0], series[1]], series[2]);
    LateSumOneMore(w, [series[0], series[1], series[2]], series[3]);
    assert [] + [series[0]] == [series[0]] && [series[0]] + [series[1]] == [series[0], series[1]];
    assert [series[0], series[1]] + [series[2]] == [series[0], series[1], series[2]];
    assert [series[0], series[1], series[2]] + [series[3]] == series;
  }

  lemma AnyFaultOneMore(w: Window, minRepeats: nat, series: seq<Option<Cell>>, c: Option<Cell>)
    ensures forall f :: AnyFault(f, w, minRepeats, series + [c]) <==>
              AnyFault(f, w, minRepeats, series) || (c.Some? && HasFault(f, w, minRepeats, c.value))
  {
    hide HasFault;
    assert forall x :: x in series + [c] <==> x in series || x == c;
  }

  // ------------------------------------------------------------ properties

  lemma EnoughRepeats(w: Window, series: seq<Option<Cell>>, minRepeats: nat)
    requires |series| == CELLS && minRepeats > 0 && !AnyFault(Few, w, minRepeats, series)
    requires forall i :: 0 <= i < CELLS ==> series[i].Some?
    ensures AllPresent(AllValues(w, series))
  {
    hide ValuesIn, Unique;
    forall i | 0 <= i < CELLS ensures ValuesOf(w, series[i]) != [] {
      assert series[i] in series;
    }
  }

  /** A signal that carries no code has all four means, so the leave-one-out loop never meets a missing arm. */
  lemma SufficientHasAllMeans(w: Window, series: seq<Option<Cell>>, minRepeats: nat)
    requires |series| == CELLS && minRepeats > 0
    ensures CodesOf(w, series, minRepeats) == [] ==> AllPresent(AllValues(w, series))
  {
    CodesOfMeaning(w, series, minRepeats);
    hide CodesOf;
    if CodesOf(w, series, minRepeats) == [] {
      assert !Applies(InsufficientRepeats, w, series, minRepeats) && !Applies(MissingBaseline, w, series, minRepeats)
          && !Applies(MissingControl, w, series, minRepeats) && !Applies(MissingPost, w, series, minRepeats);
      hide Applies;
      assert forall i :: 0 <= i < CELLS ==> series[i] in series && series[i].Some?;
      EnoughRepeats(w, series, minRepeats);
    }
  }
}

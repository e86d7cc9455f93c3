/**
 * The canonical report over all signals: one line each, sorted by identity. Its text is a function of the sorted lines,
 * so it depends on the order of the signals exactly as far as the stable sort does.
 */
module DiDReport {
  import opened Common
  import opened DiD
  import TextOrder

  /** One independently observed signal. */
  datatype Series = Series(layer: string, metricId: string, basisId: string, cells: seq<Option<Cell>>)

  /** What the report says of a signal: its identity, and the rest of its dumped form. */
  datatype Line = Line(layer: string, metricId: string, basisId: string, body: string)

  // ------------------------------------------------------- sort by identity

  predicate SameIdentity(a: Line, b: Line) {
    a.layer == b.layer && a.metricId == b.metricId && a.basisId == b.basisId
  }

  /** Identities compare as tuples do: by the first component that differs. */
  predicate Leq(a: Line, b: Line) {
    if a.layer != b.layer then TextOrder.Leq(a.layer, b.layer)
    else if a.metricId != b.metricId then TextOrder.Leq(a.metricId, b.metricId)
    else TextOrder.Leq(a.basisId, b.basisId)
  }

  lemma LeqTotal(a: Line, b: Line)
    ensures Leq(a, b) || Leq(b, a)
  {
    TextOrder.LeqTotal(a.layer, b.layer);
    TextOrder.LeqTotal(a.metricId, b.metricId);
    TextOrder.LeqTotal(a.basisId, b.basisId);
  }

  lemma LeqAntisymmetric(a: Line, b: Line)
    requires Leq(a, b) && Leq(b, a)
    ensures SameIdentity(a, b)
  {
    if a.layer != b.layer { TextOrder.LeqAntisymmetric(a.layer, b.layer); }
    if a.metricId != b.metricId { TextOrder.LeqAntisymmetric(a.metricId, b.metricId); }
    TextOrder.LeqAntisymmetric(a.basisId, b.basisId);
  }

  lemma LeqTransitive(a: Line, b: Line, c: Line)
    requires Leq(a, b) && Leq(b, c)
    ensures Leq(a, c)
  {
    hide TextOrder.Leq;
    if a.layer != b.layer && b.layer != c.layer {
      TextOrder.LeqTransitive(a.layer, b.layer, c.layer);
      if a.layer == c.layer { TextOrder.LeqAntisymmetric(a.layer, b.layer); }
    } else if a.layer == b.layer == c.layer && a.metricId != b.metricId && b.metricId != c.metricId {
      TextOrder.LeqTransitive(a.metricId, b.metricId, c.metricId);
      if a.metricId == c.metricId { TextOrder.LeqAntisymmetric(a.metricId, b.metricId); }
    } else if a.layer == b.layer == c.layer && a.metricId == b.metricId == c.metricId {
      TextOrder.LeqTransitive(a.basisId, b.basisId, c.basisId);
    }
  }

  function Insert(x: Line, sorted: seq<Line>): seq<Line> {
    if sorted == [] || Leq(x, sorted[0]) then [x] + sorted else [sorted[0]] + Insert(x, sorted[1..])
  }

  /** `sorted` by identity, which keeps the order of equal identities. */
  function Sorted(lines: seq<Line>): seq<Line> {
    if lines == [] then [] else Insert(lines[0], Sorted(lines[1..]))
  }

  ghost predicate Ascending(lines: seq<Line>) {
    forall i, j :: 0 <= i < j < |lines| ==> Leq(lines[i], lines[j])
  }

  /** The lines of one identity, in order. */
  function Of(lines: seq<Line>, who: Line): seq<Line> {
    if lines == [] then []
    else (if SameIdentity(lines[0], who) then [lines[0]] else []) + Of(lines[1..], who)
  }

  lemma OfFront(x: Line, rest: seq<Line>, who: Line)
    ensures Of([x] + rest, who) == (if SameIdentity(x, who) then [x] else []) + Of(rest, who)
  {
    assert ([x] + rest)[1..] == rest;
  }

  lemma AscendingFront(x: Line, rest: seq<Line>)
    requires Ascending(rest) && (rest == [] || Leq(x, rest[0]))
    ensures Ascending([x] + rest)
  {
    hide Leq;
    var all := [x] + rest;
    forall i, j | 0 <= i < j < |all| ensures Leq(all[i], all[j]) {
      if i == 0 && j > 1 { LeqTransitive(x, rest[0], rest[j - 1]); }
    }
  }

  lemma {:induction false} InsertKeepsOrder(x: Line, sorted: seq<Line>)
    requires Ascending(sorted)
    ensures Ascending(Insert(x, sorted))
    ensures multiset(Insert(x, sorted)) == multiset{x} + multiset(sorted)
    ensures sorted != [] ==> Insert(x, sorted)[0] == x || Insert(x, sorted)[0] == sorted[0]
    ensures Insert(x, sorted) != []
  {
    hide Leq;
    if sorted == [] || Leq(x, sorted[0]) {
      AscendingFront(x, sorted);
    } else {
      var first, rest := sorted[0], sorted[1..];
      assert sorted == [first] + rest;
      assert Ascending(rest);
      InsertKeepsOrder(x, rest);
      LeqTotal(x, first);
      hide Ascending;
      assert rest == [] ==> Insert(x, rest) == [x];
      assert rest != [] ==> Leq(first, rest[0]) by { assert rest != [] ==> rest[0] == sorted[1]; FirstTwo(sorted); }
      AscendingFront(first, Insert(x, rest));
    }
  }

  lemma FirstTwo(sorted: seq<Line>)
    requires Ascending(sorted)
    ensures |sorted| > 1 ==> Leq(sorted[0], sorted[1])
  {}

  lemma {:induction false} InsertKeepsTies(x: Line, sorted: seq<Line>, who: Line)
    ensures Of(Insert(x, sorted), who) == (if SameIdentity(x, who) then [x] else []) + Of(sorted, who)
  {
    hide Of;
    if sorted == [] || Leq(x, sorted[0]) {
      OfFront(x, sorted, who);
    } else {
      var first, rest := sorted[0], sorted[1..];
      assert sorted == [first] + rest;
      InsertKeepsTies(x, rest, who);
      OfFront(first, rest, who);
      OfFront(first, Insert(x, rest), who);
      assert !SameIdentity(x, first) by { LeqTotal(x, first); }
    }
  }

  /** The sort is an ascending permutation that leaves the lines of each identity in their order. */
  lemma {:induction false} SortIsStable(lines: seq<Line>, who: Line)
    ensures Ascending(Sorted(lines))
    ensures multiset(Sorted(lines)) == multiset(lines)
    ensures Of(Sorted(lines), who) == Of(lines, who)
  {
    hide Leq, SameIdentity, Ascending, Insert;
    if lines == [] {
      NothingIsAscending();
    } else {
      SortIsStable(lines[1..], who);
      InsertKeepsOrder(lines[0], Sorted(lines[1..]));
      InsertKeepsTies(lines[0], Sorted(lines[1..]), who);
      assert lines == [lines[0]] + lines[1..];
    }
  }

  lemma NothingIsAscending()
    ensures Ascending([])
  {}

  // ---------------------------------------------------- order of the signals

  /** Two signals of one identity of which the report says different things. */
  ghost predicate Tied(lines: seq<Line>) {
    exists a, b :: a in lines && b in lines && SameIdentity(a, b) && a != b
  }

  lemma SameBagSameLines(a: seq<Line>, b: seq<Line>)
    requires multiset(a) == multiset(b)
    ensures |a| == |b| && forall x :: x in a <==> x in b
  {
    assert forall x :: x in a <==> x in multiset(a);
    assert forall x :: x in b <==> x in multiset(b);
    assert |multiset(a)| == |a| && |multiset(b)| == |b|;
  }

  lemma LeastComesFirst(a: seq<Line>, x: Line)
    requires Ascending(a) && x in a
    ensures a[0] == x || Leq(a[0], x)
  {}

  lemma UntiedRest(a: seq<Line>)
    requires a != [] && Ascending(a) && !Tied(a)
    ensures Ascending(a[1..]) && !Tied(a[1..])
  {
    hide Leq, SameIdentity;
    assert forall x :: x in a[1..] ==> x in a;
  }

  /** Without a tie there is only one ascending order. */
  lemma {:induction false} AscendingIsUnique(a: seq<Line>, b: seq<Line>)
    requires Ascending(a) && Ascending(b) && multiset(a) == multiset(b) && !Tied(a)
    ensures a == b
  {
    SameBagSameLines(a, b);
    if a != [] {
      SameFirst(a, b);
      assert a == [a[0]] + a[1..] && b == [b[0]] + b[1..];
      UntiedRest(a);
      assert Ascending(b[1..]) by { hide Leq; }
      hide *;
      assert multiset(a[1..]) == multiset(a) - multiset{a[0]} == multiset(b[1..]);
      AscendingIsUnique(a[1..], b[1..]);
    }
  }

  lemma SameFirst(a: seq<Line>, b: seq<Line>)
    requires a != [] && b != [] && Ascending(a) && Ascending(b) && !Tied(a) && forall x :: x in a <==> x in b
    ensures a[0] == b[0]
  {
    hide Leq, SameIdentity;
    assert a[0] in b && b[0] in a;
    LeastComesFirst(a, b[0]);
    LeastComesFirst(b, a[0]);
    if a[0] != b[0] { LeqAntisymmetric(a[0], b[0]); }
  }

  // --------------------------------------------------------------- the report

  /** What stays fixed between two reports: the window, the policy, and how the numbers of a signal are written. */
  datatype Setting = Setting(window: Window, policy: Policy, dump: SignalDiD -> string)

  ghost function LineOf(g: Setting, s: Series): Line
    requires |s.cells| == CELLS
  {
    Line(s.layer, s.metricId, s.basisId, g.dump(SignalOf(g.window, s.cells, g.policy)))
  }

  ghost predicate Whole(signals: seq<Series>) {
    forall s :: s in signals ==> |s.cells| == CELLS
  }

  /** `compute_did`: each signal by itself. */
  ghost function LinesOf(g: Setting, signals: seq<Series>): seq<Line>
    requires Whole(signals)
  {
    if signals == [] then []
    else [LineOf(g, signals[0])] + LinesOf(g, signals[1..])
  }

  /** What `canonical_json` writes out. */
  ghost function Report(g: Setting, signals: seq<Series>): seq<Line>
    requires Whole(signals)
  {
    Sorted(LinesOf(g, signals))
  }

  /** Two signals share layer, metric and evidence basis, and come out differently. */
  ghost predicate Clashing(g: Setting, signals: seq<Series>)
    requires Whole(signals)
  {
    exists s, t ::
      s in signals && t in signals
      && SameIdentity(LineOf(g, s), LineOf(g, t)) && LineOf(g, s) != LineOf(g, t)
  }

  lemma WholeInAnyOrder(a: seq<Series>, b: seq<Series>)
    requires Whole(a) && multiset(a) == multiset(b)
    ensures Whole(b) && forall s :: s in a <==> s in b
  {
    assert forall s :: s in a <==> s in multiset(a);
    assert forall s :: s in b <==> s in multiset(b);
  }

  lemma LinesFront(g: Setting, s: Series, rest: seq<Series>)
    requires Whole([s] + rest)
    ensures Whole(rest) && |s.cells| == CELLS && LinesOf(g, [s] + rest) == [LineOf(g, s)] + LinesOf(g, rest)
  {
    assert s in [s] + rest && forall x :: x in rest ==> x in [s] + rest;
    assert ([s] + rest)[1..] == rest;
  }

  lemma NoLines(g: Setting)
    ensures Whole([]) && LinesOf(g, []) == []
  {}

  lemma WholeParts(a: seq<Series>, b: seq<Series>)
    ensures Whole(a + b) <==> Whole(a) && Whole(b)
  {
    assert (forall s :: s in a ==> s in a + b) && forall s :: s in b ==> s in a + b;
  }

  lemma {:induction false} LinesAppend(g: Setting, a: seq<Series>, b: seq<Series>)
    requires Whole(a) && Whole(b)
    ensures Whole(a + b) && LinesOf(g, a + b) == LinesOf(g, a) + LinesOf(g, b)
  {
    WholeParts(a, b);
    NoLines(g);
    hide *;
    if a == [] {
      assert a + b == b;
    } else {
      var first, rest := a[0], a[1..];
      assert a + b == [first] + (rest + b) && a == [first] + rest;
      LinesFront(g, first, rest);
      LinesAppend(g, rest, b);
      LinesFront(g, first, rest + b);
    }
  }

  /** A signal taken out of the middle takes its line out. */
  lemma LinesWithout(g: Setting, front: seq<Series>, s: Series, back: seq<Series>)
    requires Whole(front + ([s] + back))
    ensures |s.cells| == CELLS && Whole(front + back)
    ensures multiset(LinesOf(g, front + ([s] + back))) == multiset{LineOf(g, s)} + multiset(LinesOf(g, front + back))
  {
    WholeParts(front, [s] + back);
    WholeParts([s], back);
    WholeParts(front, back);
    hide *;
    LinesFront(g, s, back);
    LinesAppend(g, front, [s] + back);
    LinesAppend(g, front, back);
  }

  lemma Cancel<T>(x: multiset<T>, m: multiset<T>, n: multiset<T>)
    requires x + m == x + n
    ensures m == n
  {
    forall e ensures m[e] == n[e] { assert (x + m)[e] == (x + n)[e]; }
  }

  lemma TakeOut<T>(first: T, rest: seq<T>, b: seq<T>) returns (front: seq<T>, back: seq<T>)
    requires multiset([first] + rest) == multiset(b)
    ensures b == front + ([first] + back) && multiset(rest) == multiset(front + back)
  {
    assert multiset([first] + rest) == multiset{first} + multiset(rest);
    assert first in multiset(b);
    var i :| 0 <= i < |b| && b[i] == first;
    front, back := b[..i], b[i + 1..];
    assert b == front + ([first] + back);
    Cancel(multiset{first}, multiset(rest), multiset(front + back));
  }

  /** Permuted signals give permuted lines. */
  lemma {:induction false} LinesOfPermutation(g: Setting, a: seq<Series>, b: seq<Series>)
    requires Whole(a) && Whole(b) && multiset(a) == multiset(b)
    ensures multiset(LinesOf(g, a)) == multiset(LinesOf(g, b))
  {
    WholeInAnyOrder(a, b);
    hide *;
    if a == [] {
      assert |multiset(b)| == 0;
    } else {
      var s, rest := a[0], a[1..];
      assert a == [s] + rest;
      var front, back := TakeOut(s, rest, b);
      LinesFront(g, s, rest);
      LinesWithout(g, front, s, back);
      LinesOfPermutation(g, rest, front + back);
    }
  }

  lemma {:induction false} LineIsOfASignal(g: Setting, signals: seq<Series>, x: Line) returns (s: Series)
    requires Whole(signals) && x in LinesOf(g, signals)
    ensures s in signals && LineOf(g, s) == x
  {
    if x == LineOf(g, signals[0]) {
      s := signals[0];
    } else {
      assert forall t :: t in signals[1..] ==> t in signals;
      s := LineIsOfASignal(g, signals[1..], x);
    }
  }

  lemma NoClashNoTie(g: Setting, signals: seq<Series>)
    requires Whole(signals) && !Clashing(g, signals)
    ensures !Tied(LinesOf(g, signals))
  {
    hide LinesOf, LineOf;
    if a, b :| a in LinesOf(g, signals) && b in LinesOf(g, signals) && SameIdentity(a, b) && a != b {
      var s := LineIsOfASignal(g, signals, a);
      var t := LineIsOfASignal(g, signals, b);
    }
  }

  /** The signals with two of them moved to the front. */
  lemma TwoToFront<T>(all: seq<T>, s: T, t: T) returns (rest: seq<T>)
    requires s in all && t in all && s != t
    ensures multiset([s] + ([t] + rest)) == multiset(all)
  {
    var others := WithoutOne(all, s);
    assert t in multiset(all) && t in multiset(others);
    rest := WithoutOne(others, t);
  }

  lemma WithoutOne<T>(all: seq<T>, s: T) returns (others: seq<T>)
    requires s in all
    ensures multiset(all) == multiset{s} + multiset(others) && |others| == |all| - 1
  {
    var i :| 0 <= i < |all| && all[i] == s;
    others := all[..i] + all[i + 1..];
    assert all == all[..i] + [s] + all[i + 1..];
  }

  /** The report names the first of two signals of one identity first. */
  lemma FirstComesFirst(g: Setting, s: Series, rest: seq<Series>)
    requires Whole([s] + rest)
    ensures |s.cells| == CELLS
    ensures var mine := Of(Report(g, [s] + rest), LineOf(g, s));
            mine != [] && mine[0] == LineOf(g, s)
  {
    LinesFront(g, s, rest);
    hide LinesOf, LineOf, Whole;
    ReportIs(g, [s] + rest);
    hide Report;
    var who := LineOf(g, s);
    FirstOfSorted(who, LinesOf(g, rest));
  }

  lemma ReportIs(g: Setting, signals: seq<Series>)
    requires Whole(signals)
    ensures Report(g, signals) == Sorted(LinesOf(g, signals))
  {
    hide LinesOf, Sorted;
  }

  lemma FirstOfSorted(who: Line, rest: seq<Line>)
    ensures var mine := Of(Sorted([who] + rest), who);
            mine != [] && mine[0] == who
  {
    hide Sorted;
    SortIsStable([who] + rest, who);
    OfFront(who, rest, who);
    hide Of;
  }

  lemma ClashHasTwoReports(g: Setting, signals: seq<Series>) returns (a: seq<Series>, b: seq<Series>)
    requires Whole(signals) && Clashing(g, signals)
    ensures multiset(a) == multiset(signals) == multiset(b) && Whole(a) && Whole(b)
    ensures Report(g, a) != Report(g, b)
  {
    hide LineOf, Report, Of, SameIdentity;
    var s, t :| s in signals && t in signals && SameIdentity(LineOf(g, s), LineOf(g, t))
                && LineOf(g, s) != LineOf(g, t);
    var rest := TwoToFront(signals, s, t);
    a, b := [s] + ([t] + rest), [t] + ([s] + rest);
    assert multiset(a) == multiset(b);
    WholeInAnyOrder(signals, a);
    WholeInAnyOrder(signals, b);
    hide *;
    FirstComesFirst(g, s, [t] + rest);
    FirstComesFirst(g, t, [s] + rest);
    SameWho(Report(g, b), LineOf(g, s), LineOf(g, t));
  }

  lemma {:induction false} SameWho(lines: seq<Line>, a: Line, b: Line)
    requires SameIdentity(a, b)
    ensures Of(lines, a) == Of(lines, b)
  {
    if lines != [] { SameWho(lines[1..], a, b); }
  }

  /** The report is the same for every order of the signals exactly when no two of one identity come out differently. */
  lemma ReportIsOrderFreeIffNoClash(g: Setting, signals: seq<Series>)
    requires Whole(signals)
    ensures (forall moved: seq<Series> :: Whole(moved) && multiset(moved) == multiset(signals) ==>
                                            Report(g, moved) == Report(g, signals))
            <==> !Clashing(g, signals)
  {
    if Clashing(g, signals) {
      hide Report;
      var a, b := ClashHasTwoReports(g, signals);
    } else {
      NoClashNoTie(g, signals);
      forall moved: seq<Series> | Whole(moved) && multiset(moved) == multiset(signals)
        ensures Report(g, moved) == Report(g, signals)
      {
        OneReport(g, moved, signals);
      }
    }
  }

  lemma OneReport(g: Setting, a: seq<Series>, b: seq<Series>)
    requires Whole(a) && Whole(b) && multiset(a) == multiset(b) && !Tied(LinesOf(g, b))
    ensures Report(g, a) == Report(g, b)
  {
    hide LinesOf, Sorted, Ascending, Of, SameIdentity;
    var x, y := LinesOf(g, a), LinesOf(g, b);
    var who := Line("", "", "", "");
    LinesOfPermutation(g, a, b);
    SortIsStable(x, who);
    SortIsStable(y, who);
    SameBagSameLines(Sorted(y), y);
    AscendingIsUnique(Sorted(y), Sorted(x));
  }

  // --------------------------------------------------- an order that shows

  /** A dump that only tells whether some cell holds exactly one repeat. */
  function CountDump(d: SignalDiD): string {
    if 1 in d.sampleCounts then "one" else "none"
  }

  function OneRepeat(): Option<Cell> {
    Some(Cell([Entry("", Finite(0.0), 0)], false))
  }

  function Counted(): Series {
    Series("layer", "metric", "basis", [OneRepeat(), None, None, None])
  }

  function Empty(): Series {
    Series("layer", "metric", "basis", [None, None, None, None])
  }

  /** Two signals of one identity, one with a repeat and one without any: the report lists them as they were given. */
  lemma ReportCanDependOnOrder()
    ensures var g := Setting(Window(None, None), Policy(1, 0.0), CountDump);
            var one, none := Line("layer", "metric", "basis", "one"), Line("layer", "metric", "basis", "none");
            && Whole([Counted(), Empty()]) && Whole([Empty(), Counted()])
            && Clashing(g, [Counted(), Empty()])
            && Report(g, [Counted(), Empty()]) == [one, none]
            && Report(g, [Empty(), Counted()]) == [none, one]
  {
    var g := Setting(Window(None, None), Policy(1, 0.0), CountDump);
    CountedLines(g);
    SizesOfTheTwo();
    hide *;
    TwoReports(g, Counted(), Empty());
  }

  lemma SizesOfTheTwo()
    ensures Whole([Counted(), Empty()]) && Whole([Empty(), Counted()])
  {}

  lemma TwoReports(g: Setting, s: Series, t: Series)
    requires Whole([s, t]) && Whole([t, s])
    requires SameIdentity(LineOf(g, s), LineOf(g, t)) && LineOf(g, s) != LineOf(g, t)
    ensures Clashing(g, [s, t])
    ensures Report(g, [s, t]) == [LineOf(g, s), LineOf(g, t)] && Report(g, [t, s]) == [LineOf(g, t), LineOf(g, s)]
  {
    hide LineOf, Report;
    assert s in [s, t] && t in [s, t];
    TwoLines(g, s, t);
    TwoLines(g, t, s);
  }

  lemma OneValue(w: Window)
    requires w == Window(None, None)
    ensures ValuesOf(w, OneRepeat()) == [0.0] && ValuesOf(w, None) == []
  {
    var entries := OneRepeat().value.entries;
    assert entries[..0] == [];
    assert ValuesIn(w, []) == [];
    assert ValuesIn(w, entries) == [] + [0.0];
  }

  lemma CountedLines(g: Setting)
    requires g == Setting(Window(None, None), Policy(1, 0.0), CountDump)
    ensures LineOf(g, Counted()) == Line("layer", "metric", "basis", "one")
    ensures LineOf(g, Empty()) == Line("layer", "metric", "basis", "none")
  {
    hide SignalOf, ValuesOf, OneRepeat;
    OneValue(g.window);
    SampleCounts(g.window, Counted().cells, g.policy);
    SampleCounts(g.window, Empty().cells, g.policy);
  }

  lemma SampleCounts(w: Window, series: seq<Option<Cell>>, policy: Policy)
    requires |series| == CELLS
    ensures SignalOf(w, series, policy).sampleCounts
         == [|ValuesOf(w, series[0])|, |ValuesOf(w, series[1])|, |ValuesOf(w, series[2])|, |ValuesOf(w, series[3])|]
  {
    hide ValuesOf, CodesOf, SignStable, Mean;
  }

  lemma TwoLines(g: Setting, s: Series, t: Series)
    requires Whole([s, t]) && SameIdentity(LineOf(g, s), LineOf(g, t))
    ensures Report(g, [s, t]) == [LineOf(g, s), LineOf(g, t)]
  {
    assert [s, t] == [s] + [t] && [t] == [t] + [];
    ReportIs(g, [s, t]);
    WholeParts([s], [t]);
    WholeParts([t], []);
    NoLines(g);
    hide *;
    LinesFront(g, s, [t]);
    LinesFront(g, t, []);
    assert [LineOf(g, t)] + [] == [LineOf(g, t)];
    SortedPair(LineOf(g, s), LineOf(g, t));
  }

  lemma SortedPair(a: Line, b: Line)
    requires SameIdentity(a, b)
    ensures Sorted([a] + [b]) == [a, b]
  {
    assert ([a] + [b])[1..] == [b] && [b][1..] == [];
    TextOrder.LeqTotal(a.basisId, b.basisId);
    assert Sorted([b]) == [b];
  }

  ghost predicate DistinctIdentities(signals: seq<Series>) {
    forall i, j :: 0 <= i < j < |signals| ==>
      (signals[i].layer, signals[i].metricId, signals[i].basisId)
      != (signals[j].layer, signals[j].metricId, signals[j].basisId)
  }

  /** Signals of different identities have one report, whatever their order and whatever they come out as. */
  lemma DistinctSignalsHaveOneReport(g: Setting, signals: seq<Series>, moved: seq<Series>)
    requires Whole(signals) && DistinctIdentities(signals) && multiset(moved) == multiset(signals)
    ensures Whole(moved) && Report(g, moved) == Report(g, signals)
  {
    hide SignalOf, Report;
    WholeInAnyOrder(signals, moved);
    assert !Clashing(g, signals);
    ReportIsOrderFreeIffNoClash(g, signals);
  }
}

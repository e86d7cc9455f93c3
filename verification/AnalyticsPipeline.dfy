/**
 * The deduplicating SELECT as the two nested queries it is made of: filter, order by id, first row of each key; then
 * display order and the limit. Where the server may choose (equal ids, equal display keys) every choice is an answer.
 */
module AnalyticsPipeline {
  import opened Common
  import opened AnalyticsStore
  import TextOrder

  /** A row on disk: its business columns, and the server's wall-clock column. */
  datatype Physical = Physical(row: Row, ingestedAt: int)

  function KeyOf(row: Row): (string, string) {
    (row.tenant, row.key)
  }

  predicate SameLogical(a: Row, b: Row) {
    KeyOf(a) == KeyOf(b)
  }

  predicate DisplayLeq(a: Row, b: Row) {
    a.occurredAt < b.occurredAt || (a.occurredAt == b.occurredAt && TextOrder.Leq(a.id, b.id))
  }

  ghost predicate Displayed(all: seq<Physical>) {
    forall i, j :: 0 <= i < j < |all| ==> DisplayLeq(all[i].row, all[j].row)
  }

  ghost predicate OnePerKey(all: seq<Physical>) {
    forall i, j :: 0 <= i < j < |all| ==> !SameLogical(all[i].row, all[j].row)
  }

  ghost predicate FromRows(rows: seq<Physical>, matches: Row -> bool, all: seq<Physical>) {
    forall p :: p in all ==> p in rows && matches(p.row)
  }

  /** `q` stands for `p`'s key, and its id is no larger. */
  predicate Represents(q: Physical, p: Physical) {
    SameLogical(q.row, p.row) && TextOrder.Leq(q.row.id, p.row.id)
  }

  ghost predicate EveryKeyMinimal(rows: seq<Physical>, matches: Row -> bool, all: seq<Physical>) {
    forall p :: p in rows && matches(p.row) ==> exists q :: q in all && Represents(q, p)
  }

  /** The deduplicated rows in display order, before the limit. */
  ghost predicate IsDisplay(rows: seq<Physical>, matches: Row -> bool, all: seq<Physical>) {
    FromRows(rows, matches, all) && OnePerKey(all) && EveryKeyMinimal(rows, matches, all) && Displayed(all)
  }

  function Take<T>(all: seq<T>, limit: Option<nat>): seq<T> {
    if limit.Some? && limit.value < |all| then all[..limit.value] else all
  }

  // ------------------------------------------------------- the two queries

  /** `WHERE`, in the order the rows are stored. */
  function Filtered(rows: seq<Physical>, matches: Row -> bool): seq<Physical> {
    if rows == [] then []
    else
      var last := rows[|rows| - 1];
      Filtered(rows[..|rows| - 1], matches) + (if matches(last.row) then [last] else [])
  }

  ghost predicate SortedById(s: seq<Physical>) {
    forall i, j :: 0 <= i < j < |s| ==> TextOrder.Leq(s[i].row.id, s[j].row.id)
  }

  /** What the inner `ORDER BY id ASC` may deliver: the filtered rows sorted by id, equal ids in any order. */
  ghost predicate InnerOrder(rows: seq<Physical>, matches: Row -> bool, sorted: seq<Physical>) {
    multiset(sorted) == multiset(Filtered(rows, matches)) && SortedById(sorted)
  }

  ghost predicate HasKey(rows: seq<Physical>, row: Row) {
    exists p :: p in rows && SameLogical(p.row, row)
  }

  /** `LIMIT 1 BY tenant_id, idempotency_key`: the first row of each key. */
  ghost function FirstPerKey(sorted: seq<Physical>): seq<Physical> {
    if sorted == [] then []
    else
      var earlier, last := FirstPerKey(sorted[..|sorted| - 1]), sorted[|sorted| - 1];
      if HasKey(earlier, last.row) then earlier else earlier + [last]
  }

  /** What the outer `ORDER BY occurred_at, id` may deliver of the inner result. */
  ghost predicate OuterOrder(inner: seq<Physical>, all: seq<Physical>) {
    multiset(all) == multiset(inner) && Displayed(all)
  }

  /** What the whole query may return: the limit is taken of the outer result. */
  ghost predicate IsAnswer(rows: seq<Physical>, matches: Row -> bool, limit: Option<nat>, out: seq<Physical>) {
    exists sorted, all :: InnerOrder(rows, matches, sorted) && OuterOrder(FirstPerKey(sorted), all)
        && out == Take(all, limit)
  }

  lemma TakeKeepsOrder(all: seq<Physical>, limit: Option<nat>)
    ensures Displayed(all) ==> Displayed(Take(all, limit))
    ensures OnePerKey(all) ==> OnePerKey(Take(all, limit))
    ensures forall p :: p in Take(all, limit) ==> p in all
  {
    hide SameLogical, DisplayLeq;
  }

  lemma PrependKeepsOrder(first: Physical, rest: seq<Physical>)
    ensures Displayed(rest) && (forall p :: p in rest ==> DisplayLeq(first.row, p.row)) ==> Displayed([first] + rest)
    ensures OnePerKey(rest) && (forall p :: p in rest ==> !SameLogical(first.row, p.row)) ==> OnePerKey([first] + rest)
  {
    hide SameLogical, DisplayLeq;
    var all := [first] + rest;
    assert forall i :: 0 < i < |all| ==> all[i] == rest[i - 1] && rest[i - 1] in rest;
  }

  lemma OneStandsForKey(all: seq<Physical>, q: Physical, r: Physical)
    requires OnePerKey(all) && q in all && r in all && SameLogical(q.row, r.row)
    ensures q == r
  {
    hide KeyOf;
    var i :| 0 <= i < |all| && all[i] == q;
    var j :| 0 <= j < |all| && all[j] == r;
    assert !(i < j) && !(j < i);
  }

  // ------------------------------------------- the queries give a display

  lemma {:induction false} FilteredIs(rows: seq<Physical>, matches: Row -> bool)
    ensures forall p :: p in Filtered(rows, matches) <==> p in rows && matches(p.row)
  {
    if rows != [] {
      FilteredIs(rows[..|rows| - 1], matches);
      assert rows == rows[..|rows| - 1] + [rows[|rows| - 1]];
    }
  }

  lemma SameBagSameRows(a: seq<Physical>, b: seq<Physical>)
    requires multiset(a) == multiset(b)
    ensures forall p :: p in a <==> p in b
  {
    assert forall p :: p in a <==> p in multiset(a);
    assert forall p :: p in b <==> p in multiset(b);
  }

  lemma FirstPerKeyOneMore(init: seq<Physical>, last: Physical)
    ensures FirstPerKey(init + [last])
         == if HasKey(FirstPerKey(init), last.row) then FirstPerKey(init) else FirstPerKey(init) + [last]
  {
    assert (init + [last])[..|init|] == init;
  }

  /** One row per key, out of the rows given. */
  lemma {:induction false} FirstsAreOnePerKey(sorted: seq<Physical>)
    ensures OnePerKey(FirstPerKey(sorted))
    ensures forall p :: p in FirstPerKey(sorted) ==> p in sorted
  {
    if sorted == [] {
      NoFirsts();
    } else {
      hide FirstPerKey, OnePerKey, HasKey;
      var init, last := sorted[..|sorted| - 1], sorted[|sorted| - 1];
      assert sorted == init + [last];
      FirstsAreOnePerKey(init);
      FirstPerKeyOneMore(init, last);
      if !HasKey(FirstPerKey(init), last.row) { OneMoreKey(FirstPerKey(init), last); }
    }
  }

  lemma NoFirsts()
    ensures FirstPerKey([]) == [] && OnePerKey([])
  {}

  /** No key is left out. */
  lemma {:induction false} FirstsHaveEveryKey(sorted: seq<Physical>, p: Physical)
    requires p in sorted
    ensures HasKey(FirstPerKey(sorted), p.row)
  {
    hide FirstPerKey, HasKey, KeyOf;
    var init, last := sorted[..|sorted| - 1], sorted[|sorted| - 1];
    assert sorted == init + [last];
    FirstPerKeyOneMore(init, last);
    KeyOfMore(FirstPerKey(init), last, p.row);
    if p in init { FirstsHaveEveryKey(init, p); }
  }

  lemma KeyOfMore(rows: seq<Physical>, last: Physical, row: Row)
    ensures HasKey(rows, row) ==> HasKey(rows + [last], row)
    ensures HasKey(rows + [last], last.row)
  {
    hide KeyOf;
    assert last in rows + [last] && SameLogical(last.row, last.row);
    if p :| p in rows && SameLogical(p.row, row) {
      assert p in rows + [last];
    }
  }

  lemma KeyHolder(rows: seq<Physical>, row: Row) returns (q: Physical)
    requires HasKey(rows, row)
    ensures q in rows && SameLogical(q.row, row) && SameLogical(row, q.row)
  {
    q :| q in rows && SameLogical(q.row, row);
  }

  lemma OneMoreKey(rows: seq<Physical>, last: Physical)
    requires OnePerKey(rows) && !HasKey(rows, last.row)
    ensures OnePerKey(rows + [last])
  {
    hide KeyOf;
    assert forall i :: 0 <= i < |rows| ==> rows[i] in rows;
  }

  /** A kept row stands before every other row of its key. */
  lemma {:induction false} FirstComesFirst(sorted: seq<Physical>, p: Physical) returns (i: nat)
    requires p in FirstPerKey(sorted)
    ensures i < |sorted| && sorted[i] == p && forall k :: 0 <= k < i ==> !SameLogical(sorted[k].row, p.row)
  {
    if sorted == [] { NoFirsts(); }
    hide FirstPerKey, SameLogical, HasKey;
    var init, last := sorted[..|sorted| - 1], sorted[|sorted| - 1];
    assert sorted == init + [last];
    FirstPerKeyOneMore(init, last);
    if p in FirstPerKey(init) {
      i := FirstComesFirst(init, p);
    } else {
      i := |sorted| - 1;
      forall k | 0 <= k < i ensures !SameLogical(sorted[k].row, last.row) {
        assert sorted[k] == init[k];
        FirstsHaveEveryKey(init, init[k]);
        if SameLogical(sorted[k].row, last.row) { SharedKey(FirstPerKey(init), init[k].row, last.row); }
      }
    }
  }

  /** A kept row comes no later than any row of its key. */
  lemma FirstIsNotLater(sorted: seq<Physical>, q: Physical, p: Physical) returns (i: nat, j: nat)
    requires q in FirstPerKey(sorted) && p in sorted && SameLogical(p.row, q.row)
    ensures i <= j < |sorted| && sorted[i] == q && sorted[j] == p
  {
    hide FirstPerKey, SameLogical;
    i := FirstComesFirst(sorted, q);
    j :| 0 <= j < |sorted| && sorted[j] == p;
  }

  lemma SharedKey(rows: seq<Physical>, a: Row, b: Row)
    requires HasKey(rows, a) && SameLogical(a, b)
    ensures HasKey(rows, b)
  {
    var p :| p in rows && SameLogical(p.row, a);
    assert SameLogical(p.row, b);
  }

  lemma {:induction false} KeysOnceRowsOnce(all: seq<Physical>, p: Physical)
    requires OnePerKey(all)
    ensures multiset(all)[p] == if p in all then 1 else 0
  {
    if all != [] {
      var init, last := all[..|all| - 1], all[|all| - 1];
      KeysOnceRowsOnce(init, p);
      assert all == init + [last];
      assert forall i :: 0 <= i < |init| ==> init[i] == all[i] && init[i] != last;
    }
  }

  lemma TwiceIfRepeated(all: seq<Physical>, i: nat, j: nat)
    requires i < j < |all| && all[i] == all[j]
    ensures multiset(all)[all[i]] >= 2
  {
    assert all == all[..j] + [all[j]] + all[j + 1..];
    assert all[..j][i] == all[i];
    assert all[i] in all[..j];
  }

  lemma OnePerKeyInAnyOrder(a: seq<Physical>, b: seq<Physical>)
    requires OnePerKey(a) && multiset(a) == multiset(b)
    ensures OnePerKey(b)
  {
    SameBagSameRows(a, b);
    hide KeyOf;
    forall i, j | 0 <= i < j < |b| ensures !SameLogical(b[i].row, b[j].row) {
      assert b[i] in a && b[j] in a;
      if SameLogical(b[i].row, b[j].row) {
        OneStandsForKey(a, b[i], b[j]);
        KeysOnceRowsOnce(a, b[i]);
        TwiceIfRepeated(b, i, j);
      }
    }
  }

  lemma SameRowsSameBag(a: seq<Physical>, b: seq<Physical>)
    requires OnePerKey(a) && OnePerKey(b) && forall p :: p in a <==> p in b
    ensures multiset(a) == multiset(b)
  {
    hide OnePerKey;
    forall p ensures multiset(a)[p] == multiset(b)[p] {
      KeysOnceRowsOnce(a, p);
      KeysOnceRowsOnce(b, p);
    }
  }

  /** The first row of its key, in the order of ids, stands for every row of the key. */
  lemma FirstIsMinimal(sorted: seq<Physical>, p: Physical) returns (q: Physical)
    requires SortedById(sorted) && p in sorted
    ensures q in FirstPerKey(sorted) && Represents(q, p)
  {
    FirstsHaveEveryKey(sorted, p);
    TextOrder.LeqTotal(p.row.id, p.row.id);
    hide FirstPerKey, SameLogical, TextOrder.Leq, HasKey;
    q := KeyHolder(FirstPerKey(sorted), p.row);
    var i, j := FirstIsNotLater(sorted, q, p);
  }

  lemma SortedAreFiltered(rows: seq<Physical>, matches: Row -> bool, sorted: seq<Physical>)
    requires multiset(sorted) == multiset(Filtered(rows, matches))
    ensures forall p :: p in sorted <==> p in rows && matches(p.row)
  {
    FilteredIs(rows, matches);
    SameBagSameRows(sorted, Filtered(rows, matches));
  }

  lemma FirstsAreMinimal(rows: seq<Physical>, matches: Row -> bool, sorted: seq<Physical>, all: seq<Physical>)
    requires SortedById(sorted) && (forall p :: p in sorted <==> p in rows && matches(p.row))
    requires forall p :: p in all <==> p in FirstPerKey(sorted)
    ensures EveryKeyMinimal(rows, matches, all)
  {
    hide FirstPerKey, Represents, SortedById;
    forall p | p in rows && matches(p.row) ensures exists q :: q in all && Represents(q, p) {
      var q := FirstIsMinimal(sorted, p);
      assert q in all;
    }
  }

  /** What the two queries deliver: one row of least id for each key, in display order. */
  lemma PipelineIsDisplay(rows: seq<Physical>, matches: Row -> bool, sorted: seq<Physical>, all: seq<Physical>)
    requires InnerOrder(rows, matches, sorted) && OuterOrder(FirstPerKey(sorted), all)
    ensures IsDisplay(rows, matches, all)
  {
    hide Filtered, FirstPerKey, OnePerKey, Displayed, EveryKeyMinimal, SortedById;
    SortedAreFiltered(rows, matches, sorted);
    FirstsAreOnePerKey(sorted);
    SameBagSameRows(FirstPerKey(sorted), all);
    OnePerKeyInAnyOrder(FirstPerKey(sorted), all);
    FirstsAreMinimal(rows, matches, sorted, all);
  }

  // ----------------------------------- every display comes from the queries

  ghost predicate Total(leq: (Physical, Physical) -> bool) {
    && (forall a, b :: leq(a, b) || leq(b, a))
    && forall a, b, c :: leq(a, b) && leq(b, c) ==> leq(a, c)
  }

  ghost predicate SortedBy(leq: (Physical, Physical) -> bool, s: seq<Physical>) {
    forall i, j :: 0 <= i < j < |s| ==> leq(s[i], s[j])
  }

  lemma {:induction false} Sorting(leq: (Physical, Physical) -> bool, s: seq<Physical>) returns (sorted: seq<Physical>)
    requires Total(leq)
    ensures multiset(sorted) == multiset(s) && SortedBy(leq, sorted)
  {
    if s == [] {
      sorted := [];
    } else {
      var rest := Sorting(leq, s[1..]);
      hide Total, SortedBy;
      sorted := Inserting(leq, s[0], rest);
      assert s == [s[0]] + s[1..];
    }
  }

  lemma {:induction false} Inserting(leq: (Physical, Physical) -> bool, p: Physical, s: seq<Physical>)
      returns (sorted: seq<Physical>)
    requires Total(leq) && SortedBy(leq, s)
    ensures multiset(sorted) == multiset(s) + multiset{p} && SortedBy(leq, sorted)
  {
    if s == [] {
      sorted := [p];
    } else if leq(p, s[0]) {
      sorted := [p] + s;
      FrontOfSorted(leq, p, s);
    } else {
      assert leq(s[0], p);
      assert s == [s[0]] + s[1..];
      var rest := Inserting(leq, p, s[1..]);
      sorted := [s[0]] + rest;
      forall x | x in rest ensures leq(s[0], x) {
        assert x in multiset(s[1..]) + multiset{p};
        if x != p { RestIsAfter(leq, s, x); }
      }
      hide Total;
    }
  }

  lemma FrontOfSorted(leq: (Physical, Physical) -> bool, p: Physical, s: seq<Physical>)
    requires Total(leq) && SortedBy(leq, s) && s != [] && leq(p, s[0])
    ensures SortedBy(leq, [p] + s)
  {
    assert forall i :: 0 < i < |s| ==> leq(s[0], s[i]);
  }

  lemma RestIsAfter(leq: (Physical, Physical) -> bool, s: seq<Physical>, x: Physical)
    requires SortedBy(leq, s) && s != [] && x in s[1..]
    ensures leq(s[0], x)
  {
    var i :| 0 <= i < |s| - 1 && s[1..][i] == x;
    assert s[i + 1] == x;
  }

  /** By id, and among equal ids the rows of `all` first. */
  ghost predicate ChosenFirst(all: seq<Physical>, a: Physical, b: Physical) {
    TextOrder.Leq(a.row.id, b.row.id) && (TextOrder.Leq(b.row.id, a.row.id) ==> a in all || b !in all)
  }

  lemma ChosenFirstIsTotal(all: seq<Physical>, leq: (Physical, Physical) -> bool)
    requires forall a, b :: leq(a, b) <==> ChosenFirst(all, a, b)
    ensures Total(leq)
  {
    forall a, b ensures leq(a, b) || leq(b, a) {
      TextOrder.LeqTotal(a.row.id, b.row.id);
    }
    forall a, b, c | leq(a, b) && leq(b, c) ensures leq(a, c) {
      TextOrder.LeqTransitive(a.row.id, b.row.id, c.row.id);
      if TextOrder.Leq(c.row.id, a.row.id) {
        TextOrder.LeqTransitive(c.row.id, a.row.id, b.row.id);
        TextOrder.LeqTransitive(b.row.id, c.row.id, a.row.id);
      }
    }
  }

  lemma ChosenOrder(all: seq<Physical>, s: seq<Physical>) returns (sorted: seq<Physical>)
    ensures multiset(sorted) == multiset(s) && SortedById(sorted)
    ensures forall i, j :: 0 <= i < j < |sorted| ==> ChosenFirst(all, sorted[i], sorted[j])
  {
    ghost var leq := (a, b) => ChosenFirst(all, a, b);
    ChosenFirstIsTotal(all, leq);
    hide TextOrder.Leq, Total;
    sorted := Sorting(leq, s);
    assert forall i, j :: 0 <= i < j < |sorted| ==> leq(sorted[i], sorted[j]);
  }

  lemma Representative(rows: seq<Physical>, matches: Row -> bool, all: seq<Physical>, p: Physical) returns (q: Physical)
    requires EveryKeyMinimal(rows, matches, all) && FromRows(rows, matches, all) && p in rows && matches(p.row)
    ensures q in all && Represents(q, p) && q in rows && matches(q.row)
  {
    hide Represents;
    q :| q in all && Represents(q, p);
  }

  /** In that order the first rows of the keys are the rows of the display. */
  lemma ChosenAreFirst(rows: seq<Physical>, matches: Row -> bool, all: seq<Physical>, sorted: seq<Physical>,
                       p: Physical)
    requires EveryKeyMinimal(rows, matches, all) && FromRows(rows, matches, all)
    requires forall x :: x in sorted <==> x in rows && matches(x.row)
    requires forall i, j :: 0 <= i < j < |sorted| ==> ChosenFirst(all, sorted[i], sorted[j])
    requires p in FirstPerKey(sorted)
    ensures p in all
  {
    FirstsAreOnePerKey(sorted);
    hide FirstPerKey, KeyOf, TextOrder.Leq, OnePerKey, EveryKeyMinimal, FromRows;
    var q := Representative(rows, matches, all, p);
    var i, j := FirstIsNotLater(sorted, p, q);
    if i < j { assert ChosenFirst(all, sorted[i], sorted[j]); }
  }

  lemma DisplayedAreFirst(all: seq<Physical>, sorted: seq<Physical>, q: Physical)
    requires OnePerKey(all) && q in all && q in sorted && forall p :: p in FirstPerKey(sorted) ==> p in all
    ensures q in FirstPerKey(sorted)
  {
    hide FirstPerKey, OnePerKey, HasKey, SameLogical;
    FirstsHaveEveryKey(sorted, q);
    var r := KeyHolder(FirstPerKey(sorted), q.row);
    OneStandsForKey(all, r, q);
  }

  /** Every display is what the two queries may deliver, for some order of the rows with equal ids. */
  lemma DisplayIsPipeline(rows: seq<Physical>, matches: Row -> bool, all: seq<Physical>) returns (sorted: seq<Physical>)
    requires IsDisplay(rows, matches, all)
    ensures InnerOrder(rows, matches, sorted) && OuterOrder(FirstPerKey(sorted), all)
  {
    sorted := ChosenOrder(all, Filtered(rows, matches));
    SortedAreFiltered(rows, matches, sorted);
    FirstsAreOnePerKey(sorted);
    hide Filtered, FirstPerKey, ChosenFirst, OnePerKey, Displayed, EveryKeyMinimal, SortedById;
    forall p | p in FirstPerKey(sorted) ensures p in all {
      ChosenAreFirst(rows, matches, all, sorted, p);
    }
    forall q | q in all ensures q in FirstPerKey(sorted) {
      DisplayedAreFirst(all, sorted, q);
    }
    SameRowsSameBag(FirstPerKey(sorted), all);
  }

  ghost predicate TakenFromDisplay(rows: seq<Physical>, matches: Row -> bool, limit: Option<nat>, out: seq<Physical>) {
    exists all :: IsDisplay(rows, matches, all) && out == Take(all, limit)
  }

  /** The queries return exactly the displays of the table, cut at the limit. */
  lemma AnswersAreDisplays(rows: seq<Physical>, matches: Row -> bool, limit: Option<nat>, out: seq<Physical>)
    ensures IsAnswer(rows, matches, limit, out) <==> TakenFromDisplay(rows, matches, limit, out)
  {
    hide IsDisplay, InnerOrder, OuterOrder, FirstPerKey;
    if IsAnswer(rows, matches, limit, out) {
      var sorted: seq<Physical>, all: seq<Physical> :|
        InnerOrder(rows, matches, sorted) && OuterOrder(FirstPerKey(sorted), all) && out == Take(all, limit);
      PipelineIsDisplay(rows, matches, sorted, all);
    }
    if TakenFromDisplay(rows, matches, limit, out) {
      var all: seq<Physical> :| IsDisplay(rows, matches, all) && out == Take(all, limit);
      var sorted := DisplayIsPipeline(rows, matches, all);
    }
  }
}

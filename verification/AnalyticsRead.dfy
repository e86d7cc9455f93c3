/** What the deduplicating SELECT promises its readers: each key once, whatever copies the table holds. */
module AnalyticsRead {
  import opened Common
  import opened AnalyticsStore
  import opened AnalyticsQuery
  import opened AnalyticsPipeline
  import TextOrder

  // ------------------------------------------------------------ properties

  ghost function LogicalKeys(rows: seq<Physical>, matches: Row -> bool): set<(string, string)> {
    set p | p in rows && matches(p.row) :: KeyOf(p.row)
  }

  ghost function KeysOf(all: seq<Physical>): set<(string, string)> {
    set p | p in all :: KeyOf(p.row)
  }

  lemma {:induction false} KeysOfDisplay(all: seq<Physical>)
    requires OnePerKey(all)
    ensures |KeysOf(all)| == |all|
    decreases |all|
  {
    hide KeyOf;
    if all != [] {
      var earlier, last := all[..|all| - 1], all[|all| - 1];
      KeysOfDisplay(earlier);
      assert all == earlier + [last];
      assert KeyOf(last.row) !in KeysOf(earlier) by {
        assert forall i :: 0 <= i < |earlier| ==> earlier[i] == all[i] && !SameLogical(all[i].row, last.row);
      }
      assert KeysOf(all) == KeysOf(earlier) + {KeyOf(last.row)};
    }
  }

  lemma DisplayHasEveryKey(rows: seq<Physical>, matches: Row -> bool, all: seq<Physical>)
    requires FromRows(rows, matches, all) && EveryKeyMinimal(rows, matches, all)
    ensures KeysOf(all) == LogicalKeys(rows, matches)
  {
    hide KeyOf, TextOrder.Leq;
    forall p | p in rows && matches(p.row) ensures KeyOf(p.row) in KeysOf(all) {
      var q :| q in all && Represents(q, p);
    }
  }

  /** No key appears twice, every row returned is a matching one of minimal id, and the limit counts distinct logical
      rows. */
  lemma AnswerIsDeduplicated(rows: seq<Physical>, matches: Row -> bool, limit: Option<nat>, out: seq<Physical>)
    requires IsAnswer(rows, matches, limit, out)
    ensures OnePerKey(out) && FromRows(rows, matches, out) && Displayed(out)
    ensures forall i, j :: 0 <= i < j < |out| ==>
              && (out[i].row.tenant, out[i].row.key) != (out[j].row.tenant, out[j].row.key)
              && out[i].row.occurredAt <= out[j].row.occurredAt
              && (out[i].row.occurredAt == out[j].row.occurredAt ==> TextOrder.Leq(out[i].row.id, out[j].row.id))
    ensures forall q, p :: q in out && p in rows && matches(p.row) && SameLogical(q.row, p.row) ==>
              TextOrder.Leq(q.row.id, p.row.id)
    ensures |out| == if limit.Some? && limit.value < |LogicalKeys(rows, matches)| then limit.value
            else |LogicalKeys(rows, matches)|
  {
    hide IsDisplay, LogicalKeys, IsAnswer;
    AnswersAreDisplays(rows, matches, limit, out);
    var all: seq<Physical> :| IsDisplay(rows, matches, all) && out == Take(all, limit);
    DisplayIsDeduplicated(rows, matches, all);
    TakeKeepsOrder(all, limit);
    InFull(out);
    hide Displayed, OnePerKey;
  }

  /** The limited query returns the first rows of an unlimited answer. */
  lemma LimitIsAPrefix(rows: seq<Physical>, matches: Row -> bool, limit: nat, out: seq<Physical>)
    ensures IsAnswer(rows, matches, Some(limit), out) <==>
              exists all :: IsAnswer(rows, matches, None, all) && out == all[..if limit < |all| then limit else |all|]
  {
    hide InnerOrder, OuterOrder, FirstPerKey;
    if IsAnswer(rows, matches, Some(limit), out) {
      var sorted: seq<Physical>, all: seq<Physical> :|
        InnerOrder(rows, matches, sorted) && OuterOrder(FirstPerKey(sorted), all) && out == Take(all, Some(limit));
      assert all == Take(all, None) && all[..|all|] == all;
      assert IsAnswer(rows, matches, None, all);
    }
    if all :| IsAnswer(rows, matches, None, all) && out == all[..if limit < |all| then limit else |all|] {
      var sorted: seq<Physical>, same: seq<Physical> :|
        InnerOrder(rows, matches, sorted) && OuterOrder(FirstPerKey(sorted), same) && all == Take(same, None);
      assert all == same && all[..|all|] == all;
      assert out == Take(all, Some(limit));
    }
  }

  /** What one row per key in display order is, told from the columns. */
  lemma InFull(out: seq<Physical>)
    requires OnePerKey(out) && Displayed(out)
    ensures forall i, j :: 0 <= i < j < |out| ==>
              && (out[i].row.tenant, out[i].row.key) != (out[j].row.tenant, out[j].row.key)
              && out[i].row.occurredAt <= out[j].row.occurredAt
              && (out[i].row.occurredAt == out[j].row.occurredAt ==> TextOrder.Leq(out[i].row.id, out[j].row.id))
  {
    hide TextOrder.Leq;
  }

  lemma DisplayIsDeduplicated(rows: seq<Physical>, matches: Row -> bool, all: seq<Physical>)
    requires IsDisplay(rows, matches, all)
    ensures OnePerKey(all) && FromRows(rows, matches, all) && Displayed(all)
    ensures forall q, p :: q in all && p in rows && matches(p.row) && SameLogical(q.row, p.row) ==>
              TextOrder.Leq(q.row.id, p.row.id)
    ensures |all| == |LogicalKeys(rows, matches)|
  {
    hide KeysOf, LogicalKeys, SameLogical, TextOrder.Leq, Displayed, OnePerKey, EveryKeyMinimal, FromRows;
    KeysOfDisplay(all);
    DisplayHasEveryKey(rows, matches, all);
    forall q, p | q in all && p in rows && matches(p.row) && SameLogical(q.row, p.row)
      ensures TextOrder.Leq(q.row.id, p.row.id) {
      RowHasMinimalId(rows, matches, all, q, p);
    }
  }

  lemma RowHasMinimalId(rows: seq<Physical>, matches: Row -> bool, all: seq<Physical>, q: Physical, p: Physical)
    requires OnePerKey(all) && EveryKeyMinimal(rows, matches, all)
    requires q in all && p in rows && matches(p.row) && SameLogical(q.row, p.row)
    ensures TextOrder.Leq(q.row.id, p.row.id)
  {
    hide TextOrder.Leq, OnePerKey;
    var r :| r in all && Represents(r, p);
    OneStandsForKey(all, q, r);
  }

  // ---------------------------------------------------- physical duplicates

  ghost predicate SameExceptIngestion(a: seq<Physical>, b: seq<Physical>) {
    |a| == |b| && forall i :: 0 <= i < |a| ==> a[i].row == b[i].row
  }

  /** Physical copies: rows that agree with rows already there on every business column. */
  ghost predicate AreCopies(rows: seq<Physical>, copies: seq<Physical>) {
    forall c :: c in copies ==> exists p :: p in rows && p.row == c.row
  }

  /** Adding physical copies changes nothing but possibly `ingested_at`: every answer before is one after, and every
      answer after agrees with an answer before on all business columns. */
  lemma CopiesChangeNothing(rows: seq<Physical>, copies: seq<Physical>, matches: Row -> bool, limit: Option<nat>,
                            out: seq<Physical>)
    requires AreCopies(rows, copies)
    ensures IsAnswer(rows, matches, limit, out) ==> IsAnswer(rows + copies, matches, limit, out)
    ensures IsAnswer(rows + copies, matches, limit, out) ==>
              exists before :: IsAnswer(rows, matches, limit, before) && SameExceptIngestion(before, out)
  {
    hide AreCopies, IsDisplay, IsAnswer;
    AnswersAreDisplays(rows, matches, limit, out);
    AnswersAreDisplays(rows + copies, matches, limit, out);
    if IsAnswer(rows, matches, limit, out) {
      var all: seq<Physical> :| IsDisplay(rows, matches, all) && out == Take(all, limit);
      DisplayWithCopies(rows, copies, matches, all);
    }
    if IsAnswer(rows + copies, matches, limit, out) {
      var all: seq<Physical> :| IsDisplay(rows + copies, matches, all) && out == Take(all, limit);
      var originals := DisplayWithoutCopies(rows, copies, matches, all);
      var before := Take(originals, limit);
      AnswersAreDisplays(rows, matches, limit, before);
      assert SameExceptIngestion(before, out);
    }
  }

  lemma DisplayWithCopies(rows: seq<Physical>, copies: seq<Physical>, matches: Row -> bool, all: seq<Physical>)
    requires AreCopies(rows, copies) && IsDisplay(rows, matches, all)
    ensures IsDisplay(rows + copies, matches, all)
  {
    hide FromRows, OnePerKey, Displayed, EveryKeyMinimal, AreCopies;
    FromMoreRows(rows, copies, matches, all);
    CopiesAreRepresented(rows, copies, matches, all);
  }

  lemma DisplayWithoutCopies(rows: seq<Physical>, copies: seq<Physical>, matches: Row -> bool, all: seq<Physical>)
    returns (originals: seq<Physical>)
    requires AreCopies(rows, copies) && IsDisplay(rows + copies, matches, all)
    ensures IsDisplay(rows, matches, originals)
    ensures |originals| == |all| && forall i :: 0 <= i < |all| ==> originals[i].row == all[i].row
  {
    hide OnePerKey, Displayed, EveryKeyMinimal, AreCopies, Represents;
    DisplayedAreRows(rows + copies, matches, all);
    originals := Originals(rows, copies, all);
    RowsDecideMatch(rows, copies, matches, all, originals);
    RepresentedByRow(rows, copies, matches, all, originals);
    OrderByRow(rows, all, originals);
  }

  lemma DisplayedAreRows(rows: seq<Physical>, matches: Row -> bool, all: seq<Physical>)
    requires FromRows(rows, matches, all)
    ensures forall p :: p in all ==> p in rows
  {}

  lemma FromMoreRows(rows: seq<Physical>, copies: seq<Physical>, matches: Row -> bool, all: seq<Physical>)
    requires FromRows(rows, matches, all)
    ensures FromRows(rows + copies, matches, all)
  {}

  lemma CopiesAreRepresented(rows: seq<Physical>, copies: seq<Physical>, matches: Row -> bool, all: seq<Physical>)
    requires AreCopies(rows, copies) && EveryKeyMinimal(rows, matches, all)
    ensures EveryKeyMinimal(rows + copies, matches, all)
  {
    hide TextOrder.Leq, SameLogical;
    forall c | c in rows + copies && matches(c.row) ensures exists q :: q in all && Represents(q, c) {
      var p :| p in rows && p.row == c.row;
      var q :| q in all && Represents(q, p);
      assert Represents(q, c);
    }
  }

  ghost predicate SameRows(rows: seq<Physical>, all: seq<Physical>, originals: seq<Physical>) {
    && |originals| == |all|
    && forall i :: 0 <= i < |all| ==> originals[i].row == all[i].row && originals[i] in rows
  }

  /** For each row of `all`, the row of `rows` that it is, or is a copy of. */
  lemma Originals(rows: seq<Physical>, copies: seq<Physical>, all: seq<Physical>) returns (originals: seq<Physical>)
    requires AreCopies(rows, copies)
    requires forall p :: p in all ==> p in rows + copies
    ensures SameRows(rows, all, originals)
  {
    originals := [];
    for n := 0 to |all|
      invariant |originals| == n
      invariant forall i :: 0 <= i < n ==> originals[i].row == all[i].row && originals[i] in rows
    {
      assert all[n] in all;
      var p :| p in rows && p.row == all[n].row;
      originals := originals + [p];
    }
  }

  /** Being a display depends on the business columns only. */
  lemma RowsDecideMatch(rows: seq<Physical>, copies: seq<Physical>, matches: Row -> bool, all: seq<Physical>,
                        originals: seq<Physical>)
    requires FromRows(rows + copies, matches, all) && SameRows(rows, all, originals)
    ensures FromRows(rows, matches, originals)
  {
    forall p | p in originals ensures p in rows && matches(p.row) {
      var i :| 0 <= i < |originals| && originals[i] == p;
      assert all[i] in all;
    }
  }

  lemma OrderByRow(rows: seq<Physical>, all: seq<Physical>, originals: seq<Physical>)
    requires SameRows(rows, all, originals)
    ensures Displayed(all) ==> Displayed(originals)
    ensures OnePerKey(all) ==> OnePerKey(originals)
  {
    hide SameLogical, DisplayLeq;
  }

  lemma RepresentedByRow(rows: seq<Physical>, copies: seq<Physical>, matches: Row -> bool, all: seq<Physical>,
                         originals: seq<Physical>)
    requires EveryKeyMinimal(rows + copies, matches, all) && SameRows(rows, all, originals)
    ensures EveryKeyMinimal(rows, matches, originals)
  {
    hide TextOrder.Leq, SameLogical;
    forall p | p in rows && matches(p.row) ensures exists q :: q in originals && Represents(q, p) {
      assert p in rows + copies;
      var r :| r in all && Represents(r, p);
      var i :| 0 <= i < |all| && all[i] == r;
      assert originals[i] in originals && Represents(originals[i], p);
    }
  }

  // -------------------------------------------------- there is an answer

  lemma AnswerExists(rows: seq<Physical>, matches: Row -> bool, limit: Option<nat>) returns (out: seq<Physical>)
    ensures IsAnswer(rows, matches, limit, out)
  {
    var winners := Winners(rows, matches);
    var all := InDisplayOrder(winners);
    assert EveryKeyMinimal(rows, matches, all) by {
      forall p | p in rows && matches(p.row) ensures exists q :: q in all && Represents(q, p) {
        var q :| q in winners && Represents(q, p);
        assert q in all;
      }
    }
    assert IsDisplay(rows, matches, all);
    out := Take(all, limit);
    AnswersAreDisplays(rows, matches, limit, out);
  }

  ghost predicate KeysApart(ws: set<Physical>) {
    forall a, b :: a in ws && b in ws && SameLogical(a.row, b.row) ==> a == b
  }

  ghost predicate AreWinners(rows: seq<Physical>, matches: Row -> bool, ws: set<Physical>) {
    && (forall w :: w in ws ==> w in rows && matches(w.row))
    && KeysApart(ws)
    && forall p :: p in rows && matches(p.row) ==> exists q :: q in ws && Represents(q, p)
  }

  lemma {:induction false} Winners(rows: seq<Physical>, matches: Row -> bool) returns (ws: set<Physical>)
    ensures AreWinners(rows, matches, ws)
    decreases |rows|
  {
    if rows == [] {
      ws := {};
    } else {
      var earlier, last := rows[..|rows| - 1], rows[|rows| - 1];
      assert rows == earlier + [last];
      ws := Winners(earlier, matches);
      if matches(last.row) {
        ws := OneMoreWinner(earlier, matches, ws, last);
      } else {
        hide TextOrder.Leq, SameLogical;
      }
    }
  }

  lemma OneMoreWinner(rows: seq<Physical>, matches: Row -> bool, ws: set<Physical>, last: Physical)
      returns (ws': set<Physical>)
    requires AreWinners(rows, matches, ws) && matches(last.row)
    ensures AreWinners(rows + [last], matches, ws')
  {
    TextOrder.LeqTotal(last.row.id, last.row.id);
    hide TextOrder.Leq, KeyOf;
    assert Represents(last, last);
    if q :| q in ws && SameLogical(q.row, last.row) {
      TextOrder.LeqTotal(q.row.id, last.row.id);
      if TextOrder.Leq(q.row.id, last.row.id) {
        ws' := ws;
        assert Represents(q, last);
      } else {
        ws' := ws - {q} + {last};
        forall p | p in rows && matches(p.row) ensures exists r :: r in ws' && Represents(r, p) {
          var r :| r in ws && Represents(r, p);
          if r == q {
            TextOrder.LeqTransitive(last.row.id, q.row.id, p.row.id);
            assert last in ws' && Represents(last, p);
          } else {
            assert r in ws';
          }
        }
      }
    } else {
      ws' := ws + {last};
    }
  }

  lemma DisplayLeqTotal(a: Row, b: Row)
    ensures DisplayLeq(a, b) || DisplayLeq(b, a)
  {
    TextOrder.LeqTotal(a.id, b.id);
  }

  lemma DisplayLeqTransitive(a: Row, b: Row, c: Row)
    requires DisplayLeq(a, b) && DisplayLeq(b, c)
    ensures DisplayLeq(a, c)
  {
    if a.occurredAt == b.occurredAt == c.occurredAt {
      TextOrder.LeqTransitive(a.id, b.id, c.id);
    }
  }

  lemma {:induction false} FirstDisplayed(ws: set<Physical>) returns (first: Physical)
    requires ws != {}
    ensures first in ws && forall w :: w in ws ==> DisplayLeq(first.row, w.row)
    decreases |ws|
  {
    first :| first in ws;
    DisplayLeqTotal(first.row, first.row);
    var rest := ws - {first};
    if rest != {} {
      var m := FirstDisplayed(rest);
      DisplayLeqTotal(first.row, m.row);
      if DisplayLeq(first.row, m.row) {
        forall w | w in ws ensures DisplayLeq(first.row, w.row) {
          if w != first {
            DisplayLeqTransitive(first.row, m.row, w.row);
          }
        }
      } else {
        first := m;
      }
    }
  }

  lemma {:induction false} InDisplayOrder(ws: set<Physical>) returns (all: seq<Physical>)
    requires KeysApart(ws)
    ensures forall p :: p in all <==> p in ws
    ensures OnePerKey(all) && Displayed(all)
    decreases |ws|
  {
    if ws == {} {
      all := [];
    } else {
      var first := FirstDisplayed(ws);
      var rest := InDisplayOrder(ws - {first});
      hide DisplayLeq, SameLogical, Displayed, OnePerKey;
      all := [first] + rest;
      PrependKeepsOrder(first, rest);
    }
  }

  // --------------------------------------------------- writers and readers

  /** The rows on disk, with their server columns. */
  ghost predicate OnDisk(t: Table, rows: seq<Physical>) {
    |rows| == |t.rows| && forall i :: 0 <= i < |t.rows| ==> rows[i].row == t.rows[i].row
  }

  /** The logical guarantee, with no assumption on the window: after any run of writers, a `get_*` call returns rows the
      caller asked for only, no key twice, and a row for every key that has a row asked for. */
  lemma ReadersSeeEachKeyOnce(calls: map<nat, Call>, capacity: nat, run: seq<Action>, table: string, tenant: string,
                              steps: seq<Step>,
                              rows: seq<Physical>, out: seq<Physical>)
    requires Build(table, tenant, steps).Ok?
    requires OnDisk(After(calls, capacity, run).table, rows)
    requires IsAnswer(rows, r => Selects(Build(table, tenant, steps).value, r), Build(table, tenant, steps).value.limit,
                      out)
    ensures OnePerKey(out)
    ensures forall p :: p in out ==>
              Asked(tenant, steps, p.row) && exists w :: w in calls && calls[w].row == p.row
    ensures Build(table, tenant, steps).value.limit.None? ==>
              forall k :: k in After(calls, capacity, run).table.rows && Asked(tenant, steps, k.row) ==>
                exists p :: p in out && SameLogical(p.row, k.row)
  {
    var q := Build(table, tenant, steps).value;
    var matches := r => Selects(q, r);
    var s := After(calls, capacity, run);
    AnswerIsDeduplicated(rows, matches, q.limit, out);
    RunIsTraced(calls, capacity, run);
    hide OnePerKey, Displayed, Asked, Selects, After, Build, IsAnswer, Traced, OnDisk;
    forall p | p in out ensures Asked(tenant, steps, p.row) && exists w :: w in calls && calls[w].row == p.row {
      BuiltQuerySelects(table, tenant, steps, p.row);
      DiskRowHasCall(calls, s, rows, p);
    }
    if q.limit.None? {
      forall k | k in s.table.rows && Asked(tenant, steps, k.row)
        ensures exists p :: p in out && SameLogical(p.row, k.row) {
        BuiltQuerySelects(table, tenant, steps, k.row);
        KeyIsAnswered(s.table, rows, matches, out, k);
      }
    }
  }

  lemma DiskRowHasCall(calls: map<nat, Call>, s: State, rows: seq<Physical>, p: Physical)
    requires Traced(calls, s) && OnDisk(s.table, rows) && p in rows
    ensures exists w :: w in calls && calls[w].row == p.row
  {
    var i :| 0 <= i < |rows| && rows[i] == p;
    assert s.table.rows[i] in s.table.rows;
    var w :| CameFrom(calls, s, s.table.rows[i], w);
  }

  lemma KeyIsAnswered(t: Table, rows: seq<Physical>, matches: Row -> bool, out: seq<Physical>, k: Stored)
    requires OnDisk(t, rows) && k in t.rows && matches(k.row)
    requires IsAnswer(rows, matches, None, out)
    ensures exists p :: p in out && SameLogical(p.row, k.row)
  {
    hide IsDisplay, IsAnswer;
    AnswersAreDisplays(rows, matches, None, out);
    var all: seq<Physical> :| IsDisplay(rows, matches, all) && out == Take(all, None);
    var i :| 0 <= i < |t.rows| && t.rows[i] == k;
    KeyIsDisplayed(rows, matches, all, rows[i]);
  }

  lemma KeyIsDisplayed(rows: seq<Physical>, matches: Row -> bool, all: seq<Physical>, p: Physical)
    requires IsDisplay(rows, matches, all) && p in rows && matches(p.row)
    ensures exists q :: q in all && SameLogical(q.row, p.row)
  {
    var q :| q in all && Represents(q, p);
  }
}

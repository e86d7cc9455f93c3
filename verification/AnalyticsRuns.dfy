/** The writers' runs against single calls: an append is an insert and a read-back, and the window holds the latest
    tokens. */
module AnalyticsRuns {
  import opened AnalyticsStore

  lemma AfterOneMore(calls: map<nat, Call>, capacity: nat, run: seq<Action>, a: Action)
    ensures After(calls, capacity, run + [a]) == Apply(calls, capacity, After(calls, capacity, run), a)
  {
    assert (run + [a])[..|run|] == run;
  }

  /** One append with nothing in between is an insert and a read-back of the system of writers: it leaves the same
      table and gives the same answer. */
  lemma AppendIsARun(calls: map<nat, Call>, capacity: nat, run: seq<Action>, w: nat) returns (longer: seq<Action>)
    requires w in calls && w in After(calls, capacity, run).phases && After(calls, capacity, run).phases[w] == Waiting
    ensures |run| <= |longer| && longer[..|run|] == run
    ensures var s, c := After(calls, capacity, run), calls[w];
            var t := Insert(s.table, Stored(c.row, c.witnessId), c.token, capacity);
            After(calls, capacity, longer)
            == State(t, s.phases[w := Returned(Won(t, Stored(c.row, c.witnessId)))])
  {
    var s, c := After(calls, capacity, run), calls[w];
    var kept := KeptFor(Insert(s.table, Stored(c.row, c.witnessId), c.token, capacity), c);
    var first := if kept == [] then Stored(c.row, c.witnessId) else Earliest(kept);
    AfterOneMore(calls, capacity, run, DoInsert(w));
    AfterOneMore(calls, capacity, run + [DoInsert(w)], ReadBack(w, first));
    hide After, Insert, RowsOf;
    InsertThenRead(calls, capacity, s, w, first);
    hide Apply;
    longer := run + [DoInsert(w)] + [ReadBack(w, first)];
  }

  lemma InsertThenRead(calls: map<nat, Call>, capacity: nat, s: State, w: nat, first: Stored)
    requires w in calls && w in s.phases && s.phases[w] == Waiting
    requires var t := Insert(s.table, Stored(calls[w].row, calls[w].witnessId), calls[w].token, capacity);
             KeptFor(t, calls[w]) != [] ==> first == Earliest(KeptFor(t, calls[w]))
    ensures var c := calls[w];
            var t := Insert(s.table, Stored(c.row, c.witnessId), c.token, capacity);
            Apply(calls, capacity, Apply(calls, capacity, s, DoInsert(w)), ReadBack(w, first))
            == State(t, s.phases[w := Returned(Won(t, Stored(c.row, c.witnessId)))])
  {
    hide Insert, RowsOf, Earliest;
    var c := calls[w];
    var t := Insert(s.table, Stored(c.row, c.witnessId), c.token, capacity);
    var kept := KeptFor(t, c);
    assert Apply(calls, capacity, s, DoInsert(w)) == State(t, s.phases[w := Inserted]);
    assert kept != [] ==> ComesFirst(first, kept);
    hide ComesFirst;
    assert s.phases[w := Inserted][w := Returned(Won(t, Stored(c.row, c.witnessId)))]
        == s.phases[w := Returned(Won(t, Stored(c.row, c.witnessId)))];
  }

  /** What a read-back tells a writer: that it won exactly when the row listed first carries its witness; and that row
      is one of the key's with no earlier one beside it. */
  lemma ReadBackTells(calls: map<nat, Call>, capacity: nat, s: State, w: nat, first: Stored)
    requires Enabled(calls, s, ReadBack(w, first)) && KeptFor(s.table, calls[w]) != []
    ensures first in s.table.rows && first.row.tenant == calls[w].row.tenant && first.row.key == calls[w].row.key
    ensures forall k :: k in s.table.rows && k.row.tenant == calls[w].row.tenant && k.row.key == calls[w].row.key ==>
              first.row.occurredAt <= k.row.occurredAt
    ensures Apply(calls, capacity, s, ReadBack(w, first)).table == s.table
    ensures Apply(calls, capacity, s, ReadBack(w, first)).phases
         == s.phases[w := Returned(first.witnessId == calls[w].witnessId)]
  {
    hide RowsOf;
  }

  function Numbered(calls: seq<Call>): map<nat, Call> {
    map n: nat | n < |calls| :: calls[n]
  }

  ghost predicate Answered(s: State, n: nat, answers: seq<bool>) {
    forall k: nat :: n <= k < n + |answers| ==> k in s.phases && s.phases[k] == Returned(answers[k - n])
  }

  /** The calls before the `n`th have returned, and the rest wait. */
  ghost predicate UpTo(s: State, n: nat, total: nat) {
    && (forall k: nat :: k in s.phases <==> k < total)
    && (forall k: nat :: n <= k < total ==> s.phases[k] == Waiting)
  }

  ghost predicate SamePhases(s: State, t: State, n: nat) {
    forall k: nat :: k < n ==> k in s.phases && k in t.phases && t.phases[k] == s.phases[k]
  }

  /** Calls made one after the other are a run of the system of writers, with the same rows and answers. */
  lemma {:induction false} TokenPathIsARun(capacity: nat, calls: seq<Call>, n: nat, run: seq<Action>)
      returns (longer: seq<Action>)
    requires n <= |calls| && UpTo(After(Numbered(calls), capacity, run), n, |calls|)
    ensures var s, s' := After(Numbered(calls), capacity, run), After(Numbered(calls), capacity, longer);
            var path := TokenPath(capacity, calls, n, s.table);
            && path.rows == s'.table.rows
            && |path.answers| == |calls| - n && Answered(s', n, path.answers)
            && SamePhases(s, s', n)
    decreases |calls| - n
  {
    hide *;
    var all := Numbered(calls);
    var s := After(all, capacity, run);
    if n == |calls| {
      NothingAsked(capacity, calls, s);
      longer := run;
    } else {
      var c := calls[n];
      NumberedCall(calls, n);
      var t := Insert(s.table, Stored(c.row, c.witnessId), c.token, capacity);
      var won := Won(t, Stored(c.row, c.witnessId));
      OneLessWaiting(s, t, n, |calls|, won);
      var next := AppendIsARun(all, capacity, run, n);
      longer := TokenPathIsARun(capacity, calls, n + 1, next);
      PathTurn(capacity, calls, n, s.table);
      StillTheSame(s, After(all, capacity, next), After(all, capacity, longer), n, won);
      OneMoreAnswer(After(all, capacity, longer), n, won, TokenPath(capacity, calls, n + 1, t).answers);
    }
  }

  lemma NumberedCall(calls: seq<Call>, n: nat)
    requires n < |calls|
    ensures n in Numbered(calls) && Numbered(calls)[n] == calls[n]
  {}

  lemma OneLessWaiting(s: State, t: Table, n: nat, total: nat, won: bool)
    requires UpTo(s, n, total) && n < total
    ensures n in s.phases && s.phases[n] == Waiting
    ensures UpTo(State(t, s.phases[n := Returned(won)]), n + 1, total)
    ensures SamePhases(s, State(t, s.phases[n := Returned(won)]), n)
  {}

  lemma StillTheSame(s: State, t: State, u: State, n: nat, won: bool)
    requires SamePhases(s, t, n) && SamePhases(t, u, n + 1) && n in t.phases && t.phases[n] == Returned(won)
    ensures SamePhases(s, u, n) && n in u.phases && u.phases[n] == Returned(won)
  {}

  lemma NothingAsked(capacity: nat, calls: seq<Call>, s: State)
    requires UpTo(s, |calls|, |calls|)
    ensures TokenPath(capacity, calls, |calls|, s.table) == Outcome(s.table.rows, [])
    ensures Answered(s, |calls|, []) && SamePhases(s, s, |calls|)
  {}

  lemma PathTurn(capacity: nat, calls: seq<Call>, n: nat, t: Table)
    requires n < |calls|
    ensures var s := Stored(calls[n].row, calls[n].witnessId);
            var t' := Insert(t, s, calls[n].token, capacity);
            var rest := TokenPath(capacity, calls, n + 1, t');
            TokenPath(capacity, calls, n, t) == rest.(answers := [Won(t', s)] + rest.answers)
  {
    hide Insert, Won;
  }

  lemma OneMoreAnswer(s: State, n: nat, first: bool, rest: seq<bool>)
    requires Answered(s, n + 1, rest) && n in s.phases && s.phases[n] == Returned(first)
    ensures Answered(s, n, [first] + rest)
  {}

  /** The same, from the empty table. */
  lemma SequentialPathIsARun(capacity: nat, calls: seq<Call>) returns (run: seq<Action>)
    ensures var s := After(Numbered(calls), capacity, run);
            var path := TokenPath(capacity, calls, 0, Table([], []));
            && path.rows == s.table.rows
            && |path.answers| == |calls| && Answered(s, 0, path.answers)
  {
    run := TokenPathIsARun(capacity, calls, 0, []);
  }

  // ------------------------------------------------------------- the window

  /** The token at each place is that of the call that the row there came from. */
  ghost predicate TokensOfRows(calls: map<nat, Call>, rows: seq<Stored>, landed: seq<string>) {
    && |landed| == |rows|
    && forall i :: 0 <= i < |rows| ==> SentBy(calls, rows[i], landed[i])
  }

  ghost predicate SentBy(calls: map<nat, Call>, s: Stored, token: string) {
    exists w :: w in calls && calls[w].token == token && s == Stored(calls[w].row, calls[w].witnessId)
  }

  function Latest(landed: seq<string>, capacity: nat): seq<string> {
    if |landed| <= capacity then landed else landed[|landed| - capacity..]
  }

  /** Over every interleaving, the window holds the tokens of the rows that landed last, as many as it has room for. */
  lemma {:induction false} WindowHoldsTheLatest(calls: map<nat, Call>, capacity: nat, run: seq<Action>)
      returns (landed: seq<string>)
    ensures var t := After(calls, capacity, run).table;
            TokensOfRows(calls, t.rows, landed) && t.window == Latest(landed, capacity)
  {
    landed := [];
    if run != [] {
      var earlier, a := run[..|run| - 1], run[|run| - 1];
      landed := WindowHoldsTheLatest(calls, capacity, earlier);
      var s := After(calls, capacity, earlier);
      if Enabled(calls, s, a) && a.DoInsert? && calls[a.writer].token !in s.table.window {
        var c := calls[a.writer];
        OneMoreLanded(calls, s.table.rows, landed, c, a.writer);
        LatestOneMore(landed, c.token, capacity);
        landed := landed + [c.token];
      }
      hide KeptFor, ComesFirst, TokensOfRows, Latest;
    }
  }

  lemma OneMoreLanded(calls: map<nat, Call>, rows: seq<Stored>, landed: seq<string>, c: Call, w: nat)
    requires TokensOfRows(calls, rows, landed) && w in calls && calls[w] == c
    ensures TokensOfRows(calls, rows + [Stored(c.row, c.witnessId)], landed + [c.token])
  {
    assert SentBy(calls, Stored(c.row, c.witnessId), c.token);
    hide SentBy;
  }

  lemma LatestOneMore(landed: seq<string>, token: string, capacity: nat)
    ensures var grown := Latest(landed, capacity) + [token];
            Latest(landed + [token], capacity) == if |grown| > capacity then grown[|grown| - capacity..] else grown
  {}
}

/**
 * Idempotent appends to an analytics table: unconditional insert under a deduplication token,
 * then a read-back of the witness the server kept.
 */
module AnalyticsStore {
  import opened Common

  // ---------------------------------------------------------------- tokens

  const UNIT_SEPARATOR: char := '\U{1f}'

  const TABLE_NAMES: seq<string> := ["observations", "citations", "experiment_registrations", "measurement_outcome"]

  function SlugBody(t: string): string {
    if t != "" && t[|t| - 1] == '\n' then t[..|t| - 1] else t
  }

  /** A DNS-safe slug. The pattern ends in `$`, which also matches just before one final newline. */
  predicate ValidTenant(t: string) {
    var body := SlugBody(t);
    && 0 < |body| && |t| <= 32
    && (forall c :: c in body ==> SlugChar(c))
    && body[0] != '-' && body[|body| - 1] != '-'
  }

  function DedupToken(table: string, tenant: string, key: string): string {
    table + [UNIT_SEPARATOR] + tenant + [UNIT_SEPARATOR] + key
  }

  /** Splitting at the first separator is unambiguous when it does not occur in the part before it. */
  lemma FirstFieldUnique(a: string, b: string, x: string, y: string)
    requires UNIT_SEPARATOR !in a && UNIT_SEPARATOR !in b
    requires a + [UNIT_SEPARATOR] + x == b + [UNIT_SEPARATOR] + y
    ensures a == b && x == y
  {
    var l, r := a + [UNIT_SEPARATOR] + x, b + [UNIT_SEPARATOR] + y;
    assert l[|a|] == UNIT_SEPARATOR && r[|b|] == UNIT_SEPARATOR;
    assert forall i :: 0 <= i < |a| ==> l[i] == a[i];
    assert forall i :: 0 <= i < |b| ==> r[i] == b[i];
    assert |a| == |b|;
    assert a == l[..|a|] && b == r[..|b|];
    assert x == l[|a| + 1..] && y == r[|b| + 1..];
  }

  lemma ValidPartsHaveNoSeparator(table: string, tenant: string)
    ensures table in TABLE_NAMES ==> UNIT_SEPARATOR !in table
    ensures ValidTenant(tenant) ==> UNIT_SEPARATOR !in tenant
  {
    if ValidTenant(tenant) {
      forall i | 0 <= i < |tenant| ensures tenant[i] != UNIT_SEPARATOR {
        var body := SlugBody(tenant);
        assert i < |body| ==> tenant[i] == body[i] && body[i] in body;
      }
    }
  }

  /** Two owned tables and two valid tenants never share a token, whatever the idempotency keys contain. */
  lemma DedupTokenInjective(t0: string, n0: string, k0: string, t1: string, n1: string, k1: string)
    requires t0 in TABLE_NAMES && t1 in TABLE_NAMES && ValidTenant(n0) && ValidTenant(n1)
    ensures DedupToken(t0, n0, k0) == DedupToken(t1, n1, k1) <==> t0 == t1 && n0 == n1 && k0 == k1
  {
    ValidPartsHaveNoSeparator(t0, n0);
    ValidPartsHaveNoSeparator(t1, n1);
    hide ValidTenant, TABLE_NAMES;
    if DedupToken(t0, n0, k0) == DedupToken(t1, n1, k1) {
      TokenTail(t0, n0, k0);
      TokenTail(t1, n1, k1);
      hide DedupToken;
      FirstFieldUnique(t0, t1, n0 + [UNIT_SEPARATOR] + k0, n1 + [UNIT_SEPARATOR] + k1);
      FirstFieldUnique(n0, n1, k0, k1);
    }
  }

  lemma TokenTail(table: string, tenant: string, key: string)
    ensures DedupToken(table, tenant, key) == table + [UNIT_SEPARATOR] + (tenant + [UNIT_SEPARATOR] + key)
  {}

  // ------------------------------------------------------------- the table

  /** The business columns of a row. */
  datatype Row = Row(tenant: string, key: string, id: string, occurredAt: int, payload: string)

  /** A row as stored, with the witness of the call that inserted it. */
  datatype Stored = Stored(row: Row, witnessId: string)

  /** One server table: its rows, and the tokens of the most recent insert blocks. */
  datatype Table = Table(rows: seq<Stored>, window: seq<string>)

  /** The server's block deduplication: a token still in the window drops the insert; otherwise the row lands
      and the oldest token leaves a full window. */
  function Insert(t: Table, s: Stored, token: string, capacity: nat): Table {
    if token in t.window then t
    else
      var grown := t.window + [token];
      Table(t.rows + [s], if |grown| > capacity then grown[|grown| - capacity..] else grown)
  }

  predicate SameKey(s: Stored, tenant: string, key: string) {
    s.row.tenant == tenant && s.row.key == key
  }

  function RowsOf(rows: seq<Stored>, tenant: string, key: string): (r: seq<Stored>)
    ensures forall s :: s in r <==> s in rows && SameKey(s, tenant, key)
  {
    if rows == [] then [] else
      var rest := RowsOf(rows[..|rows| - 1], tenant, key);
      if SameKey(rows[|rows| - 1], tenant, key) then rest + [rows[|rows| - 1]] else rest
  }

  lemma RowsOfAppended(rows: seq<Stored>, s: Stored, tenant: string, key: string)
    ensures RowsOf(rows + [s], tenant, key) == RowsOf(rows, tenant, key) + (if SameKey(s, tenant, key) then [s] else [])
  {
    assert (rows + [s])[..|rows|] == rows;
  }

  // ------------------------------------------------------- writers at work

  /** One call of `append_*` on this table: the row, the call's own witness, and the deduplication token it sends. */
  datatype Call = Call(row: Row, witnessId: string, token: string)

  datatype Phase = Waiting | Inserted | Returned(won: bool)

  /** The table, and how far each call has got. */
  datatype State = State(table: Table, phases: map<nat, Phase>)

  /** A call inserts, or reads back; `first` is the row its read-back lists first. */
  datatype Action = DoInsert(writer: nat) | ReadBack(writer: nat, first: Stored)

  /** The writers of one table: each call has a valid tenant and a witness of its own. */
  ghost predicate ValidCalls(table: string, calls: map<nat, Call>) {
    && table in TABLE_NAMES
    && (forall w :: w in calls ==>
          && ValidTenant(calls[w].row.tenant)
          && calls[w].token == DedupToken(table, calls[w].row.tenant, calls[w].row.key))
    && FreshWitnesses(calls)
  }

  ghost predicate FreshWitnesses(calls: map<nat, Call>) {
    forall v, w :: v in calls && w in calls && calls[v].witnessId == calls[w].witnessId ==> v == w
  }

  /** Two calls send the same token exactly when they are for the same tenant and key. */
  ghost predicate TokensIdentifyKeys(calls: map<nat, Call>) {
    forall v, w :: v in calls && w in calls ==>
      (calls[v].token == calls[w].token <==> SameKey(Stored(calls[v].row, ""), calls[w].row.tenant, calls[w].row.key))
  }

  lemma ValidCallsIdentifyKeys(table: string, calls: map<nat, Call>)
    requires ValidCalls(table, calls)
    ensures TokensIdentifyKeys(calls)
  {
    forall v, w | v in calls && w in calls
      ensures calls[v].token == calls[w].token <==> SameKey(Stored(calls[v].row, ""), calls[w].row.tenant,
                                                            calls[w].row.key)
    {
      DedupTokenInjective(table, calls[v].row.tenant, calls[v].row.key, table, calls[w].row.tenant, calls[w].row.key);
    }
  }

  function KeptFor(t: Table, c: Call): seq<Stored> {
    RowsOf(t.rows, c.row.tenant, c.row.key)
  }

  /** The read-back selects the rows of the key ordered by `occurred_at`; among equal times any may come first. */
  ghost predicate ComesFirst(first: Stored, kept: seq<Stored>) {
    first in kept && forall k :: k in kept ==> first.row.occurredAt <= k.row.occurredAt
  }

  ghost predicate Enabled(calls: map<nat, Call>, s: State, a: Action) {
    && a.writer in calls && a.writer in s.phases
    && match a
       case DoInsert(w) => s.phases[w] == Waiting
       case ReadBack(w, first) =>
         s.phases[w] == Inserted && (KeptFor(s.table, calls[w]) == [] || ComesFirst(first, KeptFor(s.table, calls[w])))
  }

  ghost function Apply(calls: map<nat, Call>, capacity: nat, s: State, a: Action): State {
    if !Enabled(calls, s, a) then s else
      var c := calls[a.writer];
      match a
      case DoInsert(w) =>
        State(Insert(s.table, Stored(c.row, c.witnessId), c.token, capacity), s.phases[w := Inserted])
      case ReadBack(w, first) =>
        s.(phases := s.phases[w := Returned(KeptFor(s.table, c) != [] && first.witnessId == c.witnessId)])
  }

  /** The state after a run: any interleaving of the steps of all calls, from the empty table. */
  ghost function After(calls: map<nat, Call>, capacity: nat, run: seq<Action>): State {
    if run == [] then State(Table([], []), map w | w in calls :: Waiting)
    else Apply(calls, capacity, After(calls, capacity, run[..|run| - 1]), run[|run| - 1])
  }

  /** Some call with this token has inserted. */
  ghost predicate Attempted(calls: map<nat, Call>, s: State, token: string) {
    exists w :: w in calls && w in s.phases && calls[w].token == token && s.phases[w] != Waiting
  }

  /** The action replays a token that the window has already let go. */
  ghost predicate LateReplay(calls: map<nat, Call>, s: State, a: Action) {
    && Enabled(calls, s, a) && a.DoInsert?
    && Attempted(calls, s, calls[a.writer].token)
    && calls[a.writer].token !in s.table.window
  }

  /** How many late replays of call `w`'s key happened in a run. */
  ghost function LateReplays(calls: map<nat, Call>, capacity: nat, run: seq<Action>, w: nat): nat
    requires w in calls
  {
    if run == [] then 0 else
      var earlier, a := run[..|run| - 1], run[|run| - 1];
      LateReplays(calls, capacity, earlier, w)
      + (if LateReplay(calls, After(calls, capacity, earlier), a)
            && calls[a.writer].token == calls[w].token then 1 else 0)
  }

  // --------------------------------------------------------- what runs keep

  ghost predicate CameFrom(calls: map<nat, Call>, s: State, k: Stored, w: nat) {
    w in calls && w in s.phases && calls[w].row == k.row && calls[w].witnessId == k.witnessId && s.phases[w] != Waiting
  }

  /** Every row and every token in the window came from a call that has inserted. */
  ghost predicate Traced(calls: map<nat, Call>, s: State) {
    && s.phases.Keys == calls.Keys
    && (forall token :: token in s.table.window ==> Attempted(calls, s, token))
    && (forall k :: k in s.table.rows ==> exists w :: CameFrom(calls, s, k, w))
  }

  lemma {:induction false} RunIsTraced(calls: map<nat, Call>, capacity: nat, run: seq<Action>)
    ensures Traced(calls, After(calls, capacity, run))
  {
    if run != [] {
      var earlier, a := run[..|run| - 1], run[|run| - 1];
      RunIsTraced(calls, capacity, earlier);
      var s := After(calls, capacity, earlier);
      if Enabled(calls, s, a) {
        StepIsTraced(calls, capacity, s, a);
      }
    }
  }

  lemma StepIsTraced(calls: map<nat, Call>, capacity: nat, s: State, a: Action)
    requires Traced(calls, s) && Enabled(calls, s, a)
    ensures Traced(calls, Apply(calls, capacity, s, a))
  {
    var s' := Apply(calls, capacity, s, a);
    var c := calls[a.writer];
    forall token | token in s'.table.window ensures Attempted(calls, s', token) {
      if token in s.table.window {
        var w :| w in calls && calls[w].token == token && s.phases[w] != Waiting;
        assert s'.phases[w] != Waiting;
      } else {
        assert token == c.token && s'.phases[a.writer] != Waiting;
      }
    }
    forall k | k in s'.table.rows ensures exists w :: CameFrom(calls, s', k, w) {
      if k in s.table.rows {
        var w :| CameFrom(calls, s, k, w);
        assert CameFrom(calls, s', k, w);
      } else {
        assert CameFrom(calls, s', k, a.writer);
      }
    }
  }

  lemma KeptForStep(calls: map<nat, Call>, capacity: nat, s: State, a: Action, w: nat)
    requires TokensIdentifyKeys(calls) && Enabled(calls, s, a) && w in calls
    ensures var s' := Apply(calls, capacity, s, a);
            var token := calls[w].token;
            KeptFor(s'.table, calls[w]) ==
              if a.DoInsert? && calls[a.writer].token == token && token !in s.table.window
              then KeptFor(s.table, calls[w]) + [Stored(calls[a.writer].row, calls[a.writer].witnessId)]
              else KeptFor(s.table, calls[w])
  {
    var c, d := calls[a.writer], calls[w];
    assert c.token == d.token <==> SameKey(Stored(c.row, ""), d.row.tenant, d.row.key);
    RowsOfAppended(s.table.rows, Stored(c.row, c.witnessId), d.row.tenant, d.row.key);
  }

  lemma AttemptedStep(calls: map<nat, Call>, capacity: nat, s: State, a: Action, token: string)
    requires Enabled(calls, s, a)
    ensures Attempted(calls, Apply(calls, capacity, s, a), token) <==>
              Attempted(calls, s, token) || (a.DoInsert? && calls[a.writer].token == token)
  {
    var s' := Apply(calls, capacity, s, a);
    assert s'.phases[a.writer] != Waiting;
    if v :| v in calls && v in s.phases && calls[v].token == token && s.phases[v] != Waiting {
      assert s'.phases[v] != Waiting;
    }
    if v :| v in calls && v in s'.phases && calls[v].token == token && s'.phases[v] != Waiting {
      assert v != a.writer ==> s.phases[v] != Waiting;
    }
  }

  /** The physical rows of a key, counted exactly: one for the first insert, and one for each late replay. */
  lemma {:induction false} RowCount(calls: map<nat, Call>, capacity: nat, run: seq<Action>, w: nat)
    requires TokensIdentifyKeys(calls) && w in calls
    ensures var s := After(calls, capacity, run);
            |KeptFor(s.table, calls[w])| ==
              (if Attempted(calls, s, calls[w].token) then 1 else 0) + LateReplays(calls, capacity, run, w)
  {
    if run != [] {
      var earlier, a := run[..|run| - 1], run[|run| - 1];
      RowCount(calls, capacity, earlier, w);
      var s := After(calls, capacity, earlier);
      if Enabled(calls, s, a) {
        RunIsTraced(calls, capacity, earlier);
        KeptForStep(calls, capacity, s, a, w);
        AttemptedStep(calls, capacity, s, a, calls[w].token);
      }
    }
  }

  /** A key that was attempted has exactly one physical row exactly when no replay of it came after its token was
      evicted. */
  lemma OneRowIffNoLateReplay(table: string, calls: map<nat, Call>, capacity: nat, run: seq<Action>, w: nat)
    requires ValidCalls(table, calls) && w in calls
    requires Attempted(calls, After(calls, capacity, run), calls[w].token)
    ensures |KeptFor(After(calls, capacity, run).table, calls[w])| == 1 <==> LateReplays(calls, capacity, run, w) == 0
  {
    ValidCallsIdentifyKeys(table, calls);
    RowCount(calls, capacity, run, w);
  }

  // --------------------------------------------------- who is told it won

  /** If the call has returned, it was told whether the first row kept is its own. */
  ghost predicate Told(kept: seq<Stored>, c: Call, p: Phase) {
    p.Returned? ==> kept != [] && (p.won <==> kept[0].witnessId == c.witnessId)
  }

  ghost predicate AnswersHold(calls: map<nat, Call>, s: State, w: nat)
    requires w in calls
  {
    forall v :: v in calls && v in s.phases && calls[v].token == calls[w].token ==>
      Told(KeptFor(s.table, calls[w]), calls[v], s.phases[v])
  }

  lemma SameTokenSameRows(calls: map<nat, Call>, t: Table, v: nat, w: nat)
    requires TokensIdentifyKeys(calls) && v in calls && w in calls
    requires calls[v].token == calls[w].token
    ensures KeptFor(t, calls[v]) == KeptFor(t, calls[w])
  {
    assert SameKey(Stored(calls[v].row, ""), calls[w].row.tenant, calls[w].row.key);
  }

  lemma AnswersHoldStep(calls: map<nat, Call>, capacity: nat, s: State, a: Action, w: nat)
    requires TokensIdentifyKeys(calls) && w in calls && Enabled(calls, s, a)
    requires AnswersHold(calls, s, w)
    requires a.ReadBack? && calls[a.writer].token == calls[w].token ==> |KeptFor(s.table, calls[w])| == 1
    ensures AnswersHold(calls, Apply(calls, capacity, s, a), w)
  {
    var s' := Apply(calls, capacity, s, a);
    var kept, kept' := KeptFor(s.table, calls[w]), KeptFor(s'.table, calls[w]);
    assert kept <= kept' by { KeptForStep(calls, capacity, s, a, w); }
    forall v | v in calls && v in s'.phases && calls[v].token == calls[w].token
      ensures Told(kept', calls[v], s'.phases[v])
    {
      if v != a.writer {
        assert Told(kept, calls[v], s.phases[v]);
      } else if a.ReadBack? {
        SameTokenSameRows(calls, s.table, a.writer, w);
        assert a.first == kept[0];
      }
    }
  }

  lemma {:induction false} RunAnswersHold(calls: map<nat, Call>, capacity: nat, run: seq<Action>, w: nat)
    requires TokensIdentifyKeys(calls) && w in calls
    requires LateReplays(calls, capacity, run, w) == 0
    ensures AnswersHold(calls, After(calls, capacity, run), w)
    decreases |run|
  {
    if run != [] {
      var earlier, a := run[..|run| - 1], run[|run| - 1];
      RunAnswersHold(calls, capacity, earlier, w);
      var s := After(calls, capacity, earlier);
      if Enabled(calls, s, a) {
        RowCount(calls, capacity, earlier, w);
        PhasesMatchCalls(calls, capacity, earlier);
        assert calls[a.writer].token == calls[w].token && a.ReadBack? ==>
          Attempted(calls, s, calls[w].token);
        AnswersHoldStep(calls, capacity, s, a, w);
      }
    }
  }

  lemma PhasesMatchCalls(calls: map<nat, Call>, capacity: nat, run: seq<Action>)
    ensures After(calls, capacity, run).phases.Keys == calls.Keys
  {
    RunIsTraced(calls, capacity, run);
  }

  /** The idempotency invariant over every interleaving in which this key's token is not evicted before a replay: the
      key has exactly one physical row, and of its calls exactly the one that inserted it is told that it won. */
  lemma ExactlyOneWinner(table: string, calls: map<nat, Call>, capacity: nat, run: seq<Action>, w: nat)
      returns (winner: nat)
    requires ValidCalls(table, calls) && w in calls
    requires LateReplays(calls, capacity, run, w) == 0
    requires Attempted(calls, After(calls, capacity, run), calls[w].token)
    ensures winner in calls && calls[winner].token == calls[w].token
    ensures var s := After(calls, capacity, run);
            && s.phases.Keys == calls.Keys
            && s.phases[winner] != Waiting
            && KeptFor(s.table, calls[w]) == [Stored(calls[winner].row, calls[winner].witnessId)]
            && forall v :: v in calls && calls[v].token == calls[w].token && s.phases[v].Returned? ==>
                 (s.phases[v].won <==> v == winner)
  {
    ValidCallsIdentifyKeys(table, calls);
    RunIsTraced(calls, capacity, run);
    RowCount(calls, capacity, run, w);
    RunAnswersHold(calls, capacity, run, w);
    hide After, LateReplays, DedupToken, ValidTenant, TABLE_NAMES, Traced, TokensIdentifyKeys, FreshWitnesses,
      AnswersHold, KeptFor;
    winner := WinnerOfTheRow(calls, After(calls, capacity, run), w);
  }

  lemma WinnerOfTheRow(calls: map<nat, Call>, s: State, w: nat) returns (winner: nat)
    requires TokensIdentifyKeys(calls) && FreshWitnesses(calls) && w in calls
    requires Traced(calls, s) && AnswersHold(calls, s, w) && |KeptFor(s.table, calls[w])| == 1
    ensures winner in calls && calls[winner].token == calls[w].token
    ensures s.phases.Keys == calls.Keys && s.phases[winner] != Waiting
    ensures KeptFor(s.table, calls[w]) == [Stored(calls[winner].row, calls[winner].witnessId)]
    ensures forall v :: v in calls && calls[v].token == calls[w].token && s.phases[v].Returned? ==>
              (s.phases[v].won <==> v == winner)
  {
    var kept := KeptFor(s.table, calls[w])[0];
    assert kept in KeptFor(s.table, calls[w]);
    winner :| CameFrom(calls, s, kept, winner);
    forall v | v in calls && calls[v].token == calls[w].token && s.phases[v].Returned?
      ensures s.phases[v].won <==> v == winner
    {
      assert Told(KeptFor(s.table, calls[w]), calls[v], s.phases[v]);
    }
  }

  // -------------------------------------------- how many are told they won

  /** The calls for the key of `w` that were told they won. */
  ghost function Winners(calls: map<nat, Call>, s: State, w: nat): set<nat>
    requires w in calls
  {
    set v | v in calls && v in s.phases && calls[v].token == calls[w].token && s.phases[v] == Returned(true)
  }

  ghost function Witnesses(kept: seq<Stored>): set<string> {
    set k | k in kept :: k.witnessId
  }

  /** Every call told that it won has a row of its own among those kept. */
  ghost predicate WinnersHaveRows(calls: map<nat, Call>, s: State, w: nat)
    requires w in calls
  {
    forall v :: v in Winners(calls, s, w) ==> calls[v].witnessId in Witnesses(KeptFor(s.table, calls[w]))
  }

  lemma WinnersHaveRowsStep(calls: map<nat, Call>, capacity: nat, s: State, a: Action, w: nat)
    requires TokensIdentifyKeys(calls) && w in calls && Enabled(calls, s, a)
    requires WinnersHaveRows(calls, s, w)
    ensures WinnersHaveRows(calls, Apply(calls, capacity, s, a), w)
  {
    var s' := Apply(calls, capacity, s, a);
    var kept, kept' := KeptFor(s.table, calls[w]), KeptFor(s'.table, calls[w]);
    assert kept <= kept' by { KeptForStep(calls, capacity, s, a, w); }
    assert forall k :: k in kept ==> k in kept';
    forall v | v in Winners(calls, s', w) ensures calls[v].witnessId in Witnesses(kept') {
      if v != a.writer {
        assert v in Winners(calls, s, w);
      } else {
        SameTokenSameRows(calls, s.table, v, w);
        assert a.ReadBack? && a.first in kept;
      }
    }
  }

  lemma {:induction false} RunWinnersHaveRows(calls: map<nat, Call>, capacity: nat, run: seq<Action>, w: nat)
    requires TokensIdentifyKeys(calls) && w in calls
    ensures WinnersHaveRows(calls, After(calls, capacity, run), w)
    decreases |run|
  {
    if run != [] {
      var earlier, a := run[..|run| - 1], run[|run| - 1];
      RunWinnersHaveRows(calls, capacity, earlier, w);
      var s := After(calls, capacity, earlier);
      if Enabled(calls, s, a) {
        WinnersHaveRowsStep(calls, capacity, s, a, w);
      }
    }
  }

  lemma {:induction false} FewWitnesses(kept: seq<Stored>)
    ensures |Witnesses(kept)| <= |kept|
  {
    if kept != [] {
      var earlier, last := kept[..|kept| - 1], kept[|kept| - 1];
      FewWitnesses(earlier);
      assert kept == earlier + [last];
      assert Witnesses(kept) == Witnesses(earlier) + {last.witnessId};
    }
  }

  lemma {:induction false} NoMoreThanWitnesses(calls: map<nat, Call>, winners: set<nat>, witnesses: set<string>)
    requires FreshWitnesses(calls) && forall v :: v in winners ==> v in calls && calls[v].witnessId in witnesses
    ensures |winners| <= |witnesses|
    decreases |winners|
  {
    if v :| v in winners {
      NoMoreThanWitnesses(calls, winners - {v}, witnesses - {calls[v].witnessId});
    }
  }

  /** Over every interleaving, a key's calls told that they won are at most one more than its late replays. */
  lemma WinnersAtMostLateReplays(table: string, calls: map<nat, Call>, capacity: nat, run: seq<Action>, w: nat)
    requires ValidCalls(table, calls) && w in calls
    ensures |Winners(calls, After(calls, capacity, run), w)| <= 1 + LateReplays(calls, capacity, run, w)
  {
    ValidCallsIdentifyKeys(table, calls);
    RunWinnersHaveRows(calls, capacity, run, w);
    RowCount(calls, capacity, run, w);
    hide After, LateReplays, DedupToken, ValidTenant, TABLE_NAMES, TokensIdentifyKeys, FreshWitnesses, KeptFor,
      Attempted;
    var s := After(calls, capacity, run);
    var kept := KeptFor(s.table, calls[w]);
    FewWitnesses(kept);
    NoMoreThanWitnesses(calls, Winners(calls, s, w), Witnesses(kept));
  }

  // ----------------------------------------------- windows large enough

  ghost function TokensOf(calls: map<nat, Call>): set<string> {
    set w | w in calls :: calls[w].token
  }

  ghost predicate NoRepeats(window: seq<string>) {
    forall i, j :: 0 <= i < j < |window| ==> window[i] != window[j]
  }

  /** The window holds tokens out of `tokens`, each once. */
  ghost predicate DrawnFrom(window: seq<string>, tokens: set<string>) {
    NoRepeats(window) && forall token :: token in window ==> token in tokens
  }

  lemma {:induction false} DrawnIsShort(window: seq<string>, tokens: set<string>)
    requires DrawnFrom(window, tokens)
    ensures |window| <= |tokens|
  {
    if window != [] {
      var earlier, last := window[..|window| - 1], window[|window| - 1];
      assert forall i :: 0 <= i < |earlier| ==> earlier[i] == window[i] && earlier[i] in window;
      DrawnIsShort(earlier, tokens - {last});
      assert last in tokens;
    }
  }

  /** A window with room for all the tokens there are evicts none. */
  lemma InsertEvictsNone(t: Table, s: Stored, token: string, capacity: nat, tokens: set<string>)
    requires DrawnFrom(t.window, tokens) && token in tokens && |tokens| <= capacity
    ensures var t' := Insert(t, s, token, capacity);
            && DrawnFrom(t'.window, tokens)
            && t'.window == if token in t.window then t.window else t.window + [token]
  {
    if token !in t.window {
      var grown := t.window + [token];
      assert DrawnFrom(grown, tokens);
      DrawnIsShort(grown, tokens);
    }
  }

  /** A guard a caller can check beforehand: when the window has room for every token of the calls, no replay is ever
      late. */
  lemma {:induction false} NoLateReplayIfTokensFit(calls: map<nat, Call>, capacity: nat, run: seq<Action>, w: nat)
    requires |TokensOf(calls)| <= capacity && w in calls
    ensures LateReplays(calls, capacity, run, w) == 0
    ensures var s := After(calls, capacity, run);
            && DrawnFrom(s.table.window, TokensOf(calls))
            && forall v :: v in calls && Attempted(calls, s, calls[v].token) ==> calls[v].token in s.table.window
  {
    hide TokensOf, DrawnFrom;
    if run == [] {
      NothingDrawn(TokensOf(calls));
    } else {
      var earlier, a := run[..|run| - 1], run[|run| - 1];
      NoLateReplayIfTokensFit(calls, capacity, earlier, w);
      var s := After(calls, capacity, earlier);
      if Enabled(calls, s, a) {
        TokenIsOne(calls, a.writer);
        InsertEvictsNone(s.table, Stored(calls[a.writer].row, calls[a.writer].witnessId), calls[a.writer].token,
                         capacity, TokensOf(calls));
        forall v | v in calls
          ensures Attempted(calls, Apply(calls, capacity, s, a), calls[v].token) <==>
                    Attempted(calls, s, calls[v].token) || (a.DoInsert? && calls[a.writer].token == calls[v].token)
        {
          AttemptedStep(calls, capacity, s, a, calls[v].token);
        }
        hide Attempted;
      }
    }
  }

  lemma NothingDrawn(tokens: set<string>)
    ensures DrawnFrom([], tokens)
  {}

  lemma TokenIsOne(calls: map<nat, Call>, w: nat)
    requires w in calls
    ensures calls[w].token in TokensOf(calls)
  {}

  // ------------------------------------------- one call after the other

  /** The row a read-back lists first: the earliest, and among equal times the one stored first. */
  function Earliest(kept: seq<Stored>): (first: Stored)
    requires kept != []
    ensures ComesFirst(first, kept)
  {
    if |kept| == 1 then kept[0] else
      var rest := Earliest(kept[1..]);
      assert kept == [kept[0]] + kept[1..];
      if kept[0].row.occurredAt <= rest.row.occurredAt then kept[0] else rest
  }

  function Won(t: Table, s: Stored): bool {
    var kept := RowsOf(t.rows, s.row.tenant, s.row.key);
    kept != [] && Earliest(kept).witnessId == s.witnessId
  }

  /** Three calls of one tenant: a row, a row of another key, and the first row again, sent by another call. */
  function ReplayedCalls(table: string, tenant: string): map<nat, Call> {
    var row, other := Row(tenant, "key", "id", 1, ""), Row(tenant, "other", "id", 1, "");
    map[0 := Call(row, "w0", DedupToken(table, tenant, "key")),
        1 := Call(other, "w1", DedupToken(table, tenant, "other")),
        2 := Call(row, "w2", DedupToken(table, tenant, "key"))]
  }

  function RowSent(calls: map<nat, Call>, w: nat): Stored
    requires w in calls
  {
    Stored(calls[w].row, calls[w].witnessId)
  }

  /** Each call inserts; the two calls for the one key read back, each listing its own row first. */
  function ReplayRun(calls: map<nat, Call>): seq<Action>
    requires 0 in calls && 2 in calls
  {
    [DoInsert(0)] + [ReadBack(0, RowSent(calls, 0))] + [DoInsert(1)] + [DoInsert(2)]
    + [ReadBack(2, RowSent(calls, 2))]
  }

  /** Why a late replay must be excluded, and that no fewer winners can be promised: in a window with room for one token
      the other key evicts the token of the first; the replay then lands as a second row, and both calls for the key are
      told they won. */
  lemma LateReplayCanWinTwice(table: string, tenant: string)
    requires table in TABLE_NAMES && ValidTenant(tenant)
    ensures var calls := ReplayedCalls(table, tenant);
            var run := ReplayRun(calls);
            && ValidCalls(table, calls)
            && LateReplays(calls, 1, run, 0) == 1
            && |KeptFor(After(calls, 1, run).table, calls[0])| == 2
            && Winners(calls, After(calls, 1, run), 0) == {0, 2}
  {
    var calls := ReplayedCalls(table, tenant);
    DistinctTokens(table, tenant);
    hide DedupToken, ValidTenant, TABLE_NAMES, After, LateReplays, KeptFor, Winners, ReplayRun;
    ReplayWinsTwice(calls, calls[0].token, calls[1].token);
  }

  lemma DistinctTokens(table: string, tenant: string)
    requires table in TABLE_NAMES && ValidTenant(tenant)
    ensures DedupToken(table, tenant, "key") != DedupToken(table, tenant, "other")
  {
    hide DedupToken, ValidTenant, TABLE_NAMES;
    if DedupToken(table, tenant, "key") == DedupToken(table, tenant, "other") {
      DedupTokenInjective(table, tenant, "key", table, tenant, "other");
    }
  }

  lemma OneMoreAction(calls: map<nat, Call>, capacity: nat, run: seq<Action>, a: Action, w: nat)
    requires w in calls
    ensures After(calls, capacity, run + [a]) == Apply(calls, capacity, After(calls, capacity, run), a)
    ensures LateReplays(calls, capacity, run + [a], w) == LateReplays(calls, capacity, run, w)
              + (if LateReplay(calls, After(calls, capacity, run), a) && calls[a.writer].token == calls[w].token
                 then 1 else 0)
  {
    assert (run + [a])[..|run|] == run;
  }

  ghost predicate Replayed(calls: map<nat, Call>, token: string, other: string) {
    && calls.Keys == {0, 1, 2} && token != other
    && calls[0].token == token && calls[1].token == other && calls[2].token == token
    && calls[0].row == calls[2].row && !SameKey(RowSent(calls, 1), calls[0].row.tenant, calls[0].row.key)
    && calls[0].witnessId != calls[2].witnessId
  }

  ghost function Reached(stored: seq<Stored>, window: seq<string>, p0: Phase, p1: Phase, p2: Phase): State
  {
    State(Table(stored, window), map[0 := p0, 1 := p1, 2 := p2])
  }

  /** What each step does; only the third insert is a late replay. */
  lemma ReplayInserts(calls: map<nat, Call>, token: string, other: string)
    requires Replayed(calls, token, other)
    ensures var s0, s1, s2 := RowSent(calls, 0), RowSent(calls, 1), RowSent(calls, 2);
            var won := Returned(true);
            var start := Reached([], [], Waiting, Waiting, Waiting);
            var second := Reached([s0], [token], won, Waiting, Waiting);
            var third := Reached([s0, s1], [other], won, Inserted, Waiting);
            && Apply(calls, 1, start, DoInsert(0)) == Reached([s0], [token], Inserted, Waiting, Waiting)
            && !LateReplay(calls, start, DoInsert(0))
            && Apply(calls, 1, second, DoInsert(1)) == third && !LateReplay(calls, second, DoInsert(1))
            && Apply(calls, 1, third, DoInsert(2)) == Reached([s0, s1, s2], [token], won, Inserted, Inserted)
            && LateReplay(calls, third, DoInsert(2))
  {
    ThreeInserts(RowSent(calls, 0), RowSent(calls, 1), RowSent(calls, 2), token, other);
    hide Insert, KeptFor, ComesFirst;
  }

  lemma ReplayReadBacks(calls: map<nat, Call>, token: string, other: string)
    requires Replayed(calls, token, other)
    ensures var s0, s1, s2 := RowSent(calls, 0), RowSent(calls, 1), RowSent(calls, 2);
            var won := Returned(true);
            var all := [s0, s1, s2];
            && Apply(calls, 1, Reached([s0], [token], Inserted, Waiting, Waiting), ReadBack(0, s0))
            == Reached([s0], [token], won, Waiting, Waiting)
            && Apply(calls, 1, Reached(all, [token], won, Inserted, Inserted), ReadBack(2, s2))
            == Reached(all, [token], won, Inserted, won)
  {
    var s0, s2 := RowSent(calls, 0), RowSent(calls, 2);
    ThreeRows(s0, RowSent(calls, 1), s2);
    hide RowsOf;
    assert ComesFirst(s0, [s0]);
    assert s2 in [s0, s2] && ComesFirst(s2, [s0, s2]);
  }

  lemma ReplayWinsTwice(calls: map<nat, Call>, token: string, other: string)
    requires Replayed(calls, token, other)
    ensures var run := ReplayRun(calls);
            && LateReplays(calls, 1, run, 0) == 1
            && |KeptFor(After(calls, 1, run).table, calls[0])| == 2
            && Winners(calls, After(calls, 1, run), 0) == {0, 2}
  {
    var s0, s1, s2 := RowSent(calls, 0), RowSent(calls, 1), RowSent(calls, 2);
    var r1 := [DoInsert(0)];
    var r2 := r1 + [ReadBack(0, s0)];
    var r3 := r2 + [DoInsert(1)];
    var r4 := r3 + [DoInsert(2)];
    ReplayStart(calls, token, other);
    ReplayInserts(calls, token, other);
    ReplayReadBacks(calls, token, other);
    TwoRowsTwoWinners(calls, token, other);
    hide After, LateReplays, Apply, Enabled, KeptFor, Winners, Attempted, Reached, RowSent;
    assert [] + r1 == r1;
    OneMoreAction(calls, 1, [], DoInsert(0), 0);
    OneMoreAction(calls, 1, r1, ReadBack(0, s0), 0);
    OneMoreAction(calls, 1, r2, DoInsert(1), 0);
    OneMoreAction(calls, 1, r3, DoInsert(2), 0);
    OneMoreAction(calls, 1, r4, ReadBack(2, s2), 0);
  }

  lemma ReplayStart(calls: map<nat, Call>, token: string, other: string)
    requires Replayed(calls, token, other)
    ensures After(calls, 1, []) == Reached([], [], Waiting, Waiting, Waiting)
    ensures LateReplays(calls, 1, [], 0) == 0
  {}

  lemma TwoRowsTwoWinners(calls: map<nat, Call>, token: string, other: string)
    requires Replayed(calls, token, other)
    ensures var stored := [RowSent(calls, 0), RowSent(calls, 1), RowSent(calls, 2)];
            var last := Reached(stored, [token], Returned(true), Inserted, Returned(true));
            |KeptFor(last.table, calls[0])| == 2 && Winners(calls, last, 0) == {0, 2}
  {
    ThreeRows(RowSent(calls, 0), RowSent(calls, 1), RowSent(calls, 2));
    hide RowsOf;
  }

  lemma ThreeInserts(sa: Stored, sb: Stored, sc: Stored, token: string, other: string)
    requires token != other
    ensures Insert(Table([], []), sa, token, 1) == Table([sa], [token])
    ensures Insert(Table([sa], [token]), sb, other, 1) == Table([sa, sb], [other])
    ensures Insert(Table([sa, sb], [other]), sc, token, 1) == Table([sa, sb, sc], [token])
  {
    assert [token, other][1..] == [other] && [other, token][1..] == [token];
    assert [] + [sa] == [sa] && [sa] + [sb] == [sa, sb] && [sa, sb] + [sc] == [sa, sb, sc];
  }

  lemma ThreeRows(sa: Stored, sb: Stored, sc: Stored)
    requires SameKey(sa, sc.row.tenant, sc.row.key) && !SameKey(sb, sc.row.tenant, sc.row.key)
    ensures RowsOf([sa], sc.row.tenant, sc.row.key) == [sa]
    ensures RowsOf([sa, sb, sc], sc.row.tenant, sc.row.key) == [sa, sc]
  {
    RowsOfAppended([], sa, sc.row.tenant, sc.row.key);
    RowsOfAppended([sa], sb, sc.row.tenant, sc.row.key);
    RowsOfAppended([sa, sb], sc, sc.row.tenant, sc.row.key);
    assert [] + [sa] == [sa] && [sa] + [sb] == [sa, sb] && [sa, sb] + [sc] == [sa, sb, sc];
  }

  class Executor {
    const table: string
    const capacity: nat
    var rows: seq<Stored>
    var window: seq<string>

    constructor (table: string, capacity: nat)
      ensures this.table == table && this.capacity == capacity && rows == [] && window == []
    {
      this.table, this.capacity, rows, window := table, capacity, [], [];
    }

    function Contents(): Table
      reads this
    {
      Table(rows, window)
    }

    method InsertRows(s: Stored, token: string)
      modifies this
      ensures Contents() == Insert(old(Contents()), s, token, capacity)
    {
      if token !in window {
        rows := rows + [s];
        window := window + [token];
        if |window| > capacity {
          window := window[|window| - capacity..];
        }
      }
    }

    /** `_append_with_dedup_token` */
    method AppendWithDedupToken(row: Row, witnessId: string) returns (won: bool)
      modifies this
      ensures Contents() == Insert(old(Contents()), Stored(row, witnessId), DedupToken(table, row.tenant, row.key),
                                   capacity)
      ensures won == Won(Contents(), Stored(row, witnessId))
    {
      InsertRows(Stored(row, witnessId), DedupToken(table, row.tenant, row.key));
      won := Won(Table(rows, window), Stored(row, witnessId));
    }

    /** `_append_legacy_check_then_insert`, on an executor without deduplication */
    method AppendLegacyCheckThenInsert(row: Row) returns (won: bool)
      modifies this
      ensures won == (RowsOf(old(rows), row.tenant, row.key) == [])
      ensures rows == if won then old(rows) + [Stored(row, "")] else old(rows)
      ensures window == old(window)
    {
      if RowsOf(rows, row.tenant, row.key) != [] {
        return false;
      }
      rows := rows + [Stored(row, "")];
      won := true;
    }
  }

  datatype Outcome = Outcome(rows: seq<Stored>, answers: seq<bool>)

  /** The rows and the answers after the calls from the `n`th on, one after the other, under tokens. */
  function TokenPath(capacity: nat, calls: seq<Call>, n: nat, t: Table): Outcome
    requires n <= |calls|
    decreases |calls| - n
  {
    if n == |calls| then Outcome(t.rows, []) else
      var c := calls[n];
      var t' := Insert(t, Stored(c.row, c.witnessId), c.token, capacity);
      var rest := TokenPath(capacity, calls, n + 1, t');
      rest.(answers := [Won(t', Stored(c.row, c.witnessId))] + rest.answers)
  }

  /** The same for the check-then-insert path. */
  function LegacyPath(calls: seq<Call>, n: nat, rows: seq<Stored>): Outcome
    requires n <= |calls|
    decreases |calls| - n
  {
    if n == |calls| then Outcome(rows, []) else
      var row := calls[n].row;
      var won := RowsOf(rows, row.tenant, row.key) == [];
      var rest := LegacyPath(calls, n + 1, if won then rows + [Stored(row, "")] else rows);
      rest.(answers := [won] + rest.answers)
  }

  function WithoutWitness(rows: seq<Stored>): seq<Stored> {
    if rows == [] then [] else
      WithoutWitness(rows[..|rows| - 1]) + [Stored(rows[|rows| - 1].row, "")]
  }

  lemma {:induction false} SameRowsWithoutWitness(rows: seq<Stored>, tenant: string, key: string)
    ensures RowsOf(WithoutWitness(rows), tenant, key) == WithoutWitness(RowsOf(rows, tenant, key))
  {
    if rows != [] {
      var earlier, last := rows[..|rows| - 1], rows[|rows| - 1];
      SameRowsWithoutWitness(earlier, tenant, key);
      RowsOfAppended(WithoutWitness(earlier), Stored(last.row, ""), tenant, key);
      WithoutWitnessAppended(RowsOf(earlier, tenant, key), last);
    }
  }

  /** Every token in the window is that of a key that has a row. */
  ghost predicate WindowTraced(calls: seq<Call>, t: Table) {
    forall c :: c in calls && c.token in t.window ==> KeptFor(t, c) != []
  }

  ghost predicate SequentialCalls(table: string, calls: seq<Call>) {
    && table in TABLE_NAMES
    && (forall c :: c in calls ==> ValidTenant(c.row.tenant) && c.token == DedupToken(table, c.row.tenant, c.row.key))
    && WitnessesDiffer(calls)
  }

  ghost predicate TokensTellKeys(calls: seq<Call>) {
    forall c, d :: c in calls && d in calls ==> (c.token == d.token <==>
                                                 SameKey(Stored(c.row, ""), d.row.tenant, d.row.key))
  }

  /** The call replays a key whose token the window has let go. */
  predicate IsLate(t: Table, c: Call) {
    c.token !in t.window && KeptFor(t, c) != []
  }

  function Appended(capacity: nat, t: Table, c: Call): Table {
    Insert(t, Stored(c.row, c.witnessId), c.token, capacity)
  }

  /** None of the calls from the `n`th on is a late replay at its turn. */
  predicate NoneLate(capacity: nat, calls: seq<Call>, n: nat, t: Table)
    requires n <= |calls|
    decreases |calls| - n
  {
    n == |calls| || (!IsLate(t, calls[n]) && NoneLate(capacity, calls, n + 1, Appended(capacity, t, calls[n])))
  }

  /** Run without interleaving, both paths leave the same business rows exactly when no replay is late, however many
      calls there are; and then they give every call the same answer. */
  lemma LegacyPathAgrees(table: string, capacity: nat, calls: seq<Call>)
    requires SequentialCalls(table, calls)
    ensures var tokens, legacy := TokenPath(capacity, calls, 0, Table([], [])), LegacyPath(calls, 0, []);
            && (NoneLate(capacity, calls, 0, Table([], [])) <==> WithoutWitness(tokens.rows) == legacy.rows)
            && (NoneLate(capacity, calls, 0, Table([], [])) ==> tokens.answers == legacy.answers)
  {
    SequentialTokensTellKeys(table, calls);
    hide DedupToken, ValidTenant, TABLE_NAMES, TokensTellKeys;
    if NoneLate(capacity, calls, 0, Table([], [])) {
      PathsAgree(capacity, calls, 0, Table([], []), []);
    } else {
      LateReplayParts(capacity, calls, 0, Table([], []), []);
      SameLengthWithoutWitness(TokenPath(capacity, calls, 0, Table([], [])).rows);
    }
  }

  lemma SequentialTokensTellKeys(table: string, calls: seq<Call>)
    requires SequentialCalls(table, calls)
    ensures TokensTellKeys(calls)
  {
    forall c, d | c in calls && d in calls
      ensures c.token == d.token <==> SameKey(Stored(c.row, ""), d.row.tenant, d.row.key)
    {
      DedupTokenInjective(table, c.row.tenant, c.row.key, table, d.row.tenant, d.row.key);
    }
  }

  /** A guard for the same: room in the window for every token of the calls. */
  lemma {:induction false} NoneLateIfTokensFit(capacity: nat, calls: seq<Call>, n: nat, t: Table, tokens: set<string>)
    requires TokensTellKeys(calls) && n <= |calls|
    requires |tokens| <= capacity && DrawnFrom(t.window, tokens) && forall c :: c in calls ==> c.token in tokens
    requires forall c :: c in calls && KeptFor(t, c) != [] ==> c.token in t.window
    ensures NoneLate(capacity, calls, n, t)
    decreases |calls| - n
  {
    if n < |calls| {
      var c := calls[n];
      var t' := Appended(capacity, t, c);
      InsertEvictsNone(t, Stored(c.row, c.witnessId), c.token, capacity, tokens);
      forall d | d in calls && KeptFor(t', d) != [] ensures d.token in t'.window {
        RowsOfAppended(t.rows, Stored(c.row, c.witnessId), d.row.tenant, d.row.key);
      }
      hide DrawnFrom, TokensTellKeys, KeptFor;
      NoneLateIfTokensFit(capacity, calls, n + 1, t', tokens);
    }
  }

  /** What both paths have in common after `n` calls. */
  ghost predicate InStep(calls: seq<Call>, n: nat, t: Table, legacy: seq<Stored>) {
    && WithoutWitness(t.rows) == legacy
    && WindowTraced(calls, t)
    && WitnessesSpent(calls, n, t)
  }

  lemma InStepRows(calls: seq<Call>, n: nat, t: Table, legacy: seq<Stored>)
    requires InStep(calls, n, t, legacy)
    ensures WithoutWitness(t.rows) == legacy
  {}

  ghost predicate WitnessesDiffer(calls: seq<Call>) {
    forall i, j :: 0 <= i < j < |calls| ==> calls[i].witnessId != calls[j].witnessId
  }

  lemma {:induction false} PathsAgree(capacity: nat, calls: seq<Call>, n: nat, t: Table, legacy: seq<Stored>)
    requires TokensTellKeys(calls) && WitnessesDiffer(calls) && n <= |calls|
    requires InStep(calls, n, t, legacy) && NoneLate(capacity, calls, n, t)
    ensures TokenPath(capacity, calls, n, t).answers == LegacyPath(calls, n, legacy).answers
    ensures WithoutWitness(TokenPath(capacity, calls, n, t).rows) == LegacyPath(calls, n, legacy).rows
    decreases |calls| - n
  {
    hide TokensTellKeys, WitnessesDiffer, InStep, RowsOf, IsLate;
    if n < |calls| {
      var c := calls[n];
      NextInStep(capacity, calls, n, t, legacy);
      PathsAgree(capacity, calls, n + 1, Appended(capacity, t, c), LegacyAppended(legacy, c));
    } else {
      InStepRows(calls, n, t, legacy);
    }
  }

  function LegacyAppended(legacy: seq<Stored>, c: Call): seq<Stored> {
    if RowsOf(legacy, c.row.tenant, c.row.key) == [] then legacy + [Stored(c.row, "")] else legacy
  }

  lemma NextInStep(capacity: nat, calls: seq<Call>, n: nat, t: Table, legacy: seq<Stored>)
    requires TokensTellKeys(calls) && WitnessesDiffer(calls) && n < |calls|
    requires InStep(calls, n, t, legacy) && !IsLate(t, calls[n])
    ensures var c := calls[n];
            Won(Appended(capacity, t, c), Stored(c.row, c.witnessId)) == (RowsOf(legacy, c.row.tenant, c.row.key) == [])
    ensures InStep(calls, n + 1, Appended(capacity, t, calls[n]), LegacyAppended(legacy, calls[n]))
  {
    var c := calls[n];
    assert forall k :: k in t.rows ==> k.witnessId != c.witnessId;
    SequentialStep(capacity, calls, t, c);
    SameRowsWithoutWitness(t.rows, c.row.tenant, c.row.key);
    WithoutWitnessAppended(t.rows, Stored(c.row, c.witnessId));
    WithoutWitnessAppended(KeptFor(t, c), Stored(c.row, c.witnessId));
    hide RowsOf, WindowTraced, TokensTellKeys, Won, Insert;
  }

  /** No row carries the witness of a call still to come. */
  ghost predicate WitnessesSpent(calls: seq<Call>, n: nat, t: Table) {
    forall k, j :: k in t.rows && n <= j < |calls| ==> k.witnessId != calls[j].witnessId
  }

  lemma WithoutWitnessAppended(rows: seq<Stored>, s: Stored)
    ensures WithoutWitness(rows + [s]) == WithoutWitness(rows) + [Stored(s.row, "")]
    ensures WithoutWitness(rows) == [] <==> rows == []
  {
    assert (rows + [s])[..|rows|] == rows;
  }

  /** One sequential append that is not a late replay: it lands and wins exactly when its key has no row yet. */
  lemma SequentialStep(capacity: nat, calls: seq<Call>, t: Table, c: Call)
    requires TokensTellKeys(calls) && c in calls && WindowTraced(calls, t) && !IsLate(t, c)
    requires forall k :: k in t.rows ==> k.witnessId != c.witnessId
    ensures var s, t' := Stored(c.row, c.witnessId), Appended(capacity, t, c);
            && Won(t', s) == (KeptFor(t, c) == [])
            && t'.rows == (if KeptFor(t, c) == [] then t.rows + [s] else t.rows)
            && WindowTraced(calls, t')
  {
    var s := Stored(c.row, c.witnessId);
    WindowStaysTraced(capacity, calls, t, c);
    hide WindowTraced, TokensTellKeys;
    if KeptFor(t, c) != [] {
      assert Earliest(KeptFor(t, c)) in KeptFor(t, c);
    } else {
      RowsOfAppended(t.rows, s, c.row.tenant, c.row.key);
    }
  }

  lemma WindowStaysTraced(capacity: nat, calls: seq<Call>, t: Table, c: Call)
    requires TokensTellKeys(calls) && c in calls && WindowTraced(calls, t)
    ensures WindowTraced(calls, Appended(capacity, t, c))
    ensures c.token in t.window ==> KeptFor(t, c) != []
  {
    var t' := Appended(capacity, t, c);
    assert forall token :: token in t'.window ==> token in t.window || token == c.token;
    forall d | d in calls && d.token in t'.window ensures KeptFor(t', d) != [] {
      RowsOfAppended(t.rows, Stored(c.row, c.witnessId), d.row.tenant, d.row.key);
    }
  }

  // ------------------------------------------ a late replay parts the paths

  /** Both paths have a row for the same keys, and every token in the window is that of such a key. */
  ghost predicate SameKeys(calls: seq<Call>, t: Table, legacy: seq<Stored>) {
    && WindowTraced(calls, t)
    && forall c :: c in calls ==> (KeptFor(t, c) == [] <==> RowsOf(legacy, c.row.tenant, c.row.key) == [])
  }

  lemma SameKeysStep(capacity: nat, calls: seq<Call>, t: Table, legacy: seq<Stored>, c: Call)
    requires TokensTellKeys(calls) && SameKeys(calls, t, legacy) && c in calls
    ensures SameKeys(calls, Appended(capacity, t, c), LegacyAppended(legacy, c))
    ensures var grown, legacyGrown := |Appended(capacity, t, c).rows| - |t.rows|,
            |LegacyAppended(legacy, c)| - |legacy|;
            if IsLate(t, c) then grown == 1 && legacyGrown == 0 else grown == legacyGrown
  {
    WindowStaysTraced(capacity, calls, t, c);
    var t', legacy' := Appended(capacity, t, c), LegacyAppended(legacy, c);
    forall d | d in calls ensures KeptFor(t', d) == [] <==> RowsOf(legacy', d.row.tenant, d.row.key) == [] {
      RowsOfAppended(t.rows, Stored(c.row, c.witnessId), d.row.tenant, d.row.key);
      RowsOfAppended(legacy, Stored(c.row, ""), d.row.tenant, d.row.key);
    }
  }

  /** A table that is ahead of the legacy rows stays ahead. */
  lemma {:induction false} StaysAhead(capacity: nat, calls: seq<Call>, n: nat, t: Table, legacy: seq<Stored>)
    requires TokensTellKeys(calls) && n <= |calls| && SameKeys(calls, t, legacy) && |t.rows| > |legacy|
    ensures |TokenPath(capacity, calls, n, t).rows| > |LegacyPath(calls, n, legacy).rows|
    decreases |calls| - n
  {
    hide TokensTellKeys, SameKeys, IsLate, RowsOf, Won;
    if n < |calls| {
      SameKeysStep(capacity, calls, t, legacy, calls[n]);
      StaysAhead(capacity, calls, n + 1, Appended(capacity, t, calls[n]), LegacyAppended(legacy, calls[n]));
    }
  }

  lemma {:induction false} LateReplayParts(capacity: nat, calls: seq<Call>, n: nat, t: Table, legacy: seq<Stored>)
    requires TokensTellKeys(calls) && n <= |calls| && SameKeys(calls, t, legacy) && |t.rows| == |legacy|
    requires !NoneLate(capacity, calls, n, t)
    ensures |TokenPath(capacity, calls, n, t).rows| > |LegacyPath(calls, n, legacy).rows|
    decreases |calls| - n
  {
    hide TokensTellKeys, SameKeys, IsLate, RowsOf, Won;
    var c := calls[n];
    SameKeysStep(capacity, calls, t, legacy, c);
    if IsLate(t, c) {
      StaysAhead(capacity, calls, n + 1, Appended(capacity, t, c), LegacyAppended(legacy, c));
    } else {
      LateReplayParts(capacity, calls, n + 1, Appended(capacity, t, c), LegacyAppended(legacy, c));
    }
  }

  lemma {:induction false} SameLengthWithoutWitness(rows: seq<Stored>)
    ensures |WithoutWitness(rows)| == |rows|
  {
    if rows != [] { SameLengthWithoutWitness(rows[..|rows| - 1]); }
  }
}

/** Rows behind a bad one: over any run of drains of the whole outbox they stay where they are; a tenant's own drain
    passes. */
module OutboxBlocking {
  import opened Common
  import opened Outbox

  /** Only drains of the whole outbox, never of one tenant. */
  ghost predicate Unfiltered(run: seq<Action>) {
    forall a :: a in run && a.Begin? ==> a.tenant == None
  }

  /** Entry `i`, whose checks raise, stands before entry `j`. */
  ghost predicate Behind(checks: Checks, entries: seq<Envelope>, i: nat, j: nat) {
    i < j < |entries| && FateOf(checks, entries[i]).Abort?
  }

  /** Wherever the batch holds a row behind a bad one, it holds the bad one earlier. */
  ghost predicate KeepsOrder(checks: Checks, entries: seq<Envelope>, batch: seq<Envelope>) {
    forall i: nat, j: nat, k: nat :: Behind(checks, entries, i, j) && k < |batch| && batch[k] == entries[j] ==>
      entries[i] in batch[..k]
  }

  ghost predicate NoBadPassed(checks: Checks, d: Drain) {
    d.next <= |d.batch| && NoAbort(checks, d.batch[..d.next])
  }

  ghost predicate Untouched(s: Sys, e: Envelope) {
    e.eventId !in s.marked && forall m :: m in s.log ==> m.envelope != e
  }

  ghost predicate BehindUntouched(checks: Checks, s: Sys) {
    forall i: nat, j: nat :: Behind(checks, s.entries, i, j) ==> Untouched(s, s.entries[j])
  }

  ghost predicate DrainBlocked(checks: Checks, entries: seq<Envelope>, d: Drain) {
    KeepsOrder(checks, entries, d.batch) && NoBadPassed(checks, d)
  }

  ghost predicate Held(checks: Checks, s: Sys) {
    && BehindUntouched(checks, s)
    && forall id :: id in s.drains ==> DrainBlocked(checks, s.entries, s.drains[id])
  }

  /** The row a drain is at is behind no bad row: the drain would have met the bad row first. */
  lemma RowAtHandIsNotBehind(checks: Checks, entries: seq<Envelope>, d: Drain, i: nat, j: nat)
    requires DrainBlocked(checks, entries, d) && d.next < |d.batch| && Behind(checks, entries, i, j)
    ensures entries[j] != d.batch[d.next]
  {
    hide FateOf;
    var passed := d.batch[..d.next];
    assert forall e :: e in passed ==> !FateOf(checks, e).Abort?;
  }

  lemma PendingLast(entries: seq<Envelope>, marked: set<string>)
    requires entries != []
    ensures var before := PendingOf(entries[..|entries| - 1], marked, None);
            PendingOf(entries, marked, None) ==
            if entries[|entries| - 1].eventId !in marked then before + [entries[|entries| - 1]] else before
  {}

  /** The last entry comes after every pending entry. */
  lemma LastIsBehindAll(entries: seq<Envelope>, marked: set<string>, i: nat, k: nat)
    requires DistinctIds(entries) && i < |entries| - 1 && entries[i].eventId !in marked
    requires k < |PendingOf(entries, marked, None)| && PendingOf(entries, marked, None)[k] == entries[|entries| - 1]
    ensures entries[i] in PendingOf(entries, marked, None)[..k]
  {
    hide PendingOf;
    var earlier, last := entries[..|entries| - 1], entries[|entries| - 1];
    var before, all := PendingOf(earlier, marked, None), PendingOf(entries, marked, None);
    PendingLast(entries, marked);
    assert forall x :: x in before ==> x in earlier;
    assert forall x :: 0 <= x < |earlier| ==> earlier[x] == entries[x] && entries[x] != last;
    assert k == |before| && all[..k] == before;
    assert earlier[i] in before;
  }

  lemma {:induction false} PendingKeepsOrder(entries: seq<Envelope>, marked: set<string>, i: nat, j: nat, k: nat)
    requires DistinctIds(entries) && i < j < |entries| && entries[i].eventId !in marked
    requires k < |PendingOf(entries, marked, None)| && PendingOf(entries, marked, None)[k] == entries[j]
    ensures entries[i] in PendingOf(entries, marked, None)[..k]
    decreases |entries|
  {
    hide PendingOf;
    if j == |entries| - 1 {
      LastIsBehindAll(entries, marked, i, k);
    } else {
      var earlier := entries[..|entries| - 1];
      PendingLast(entries, marked);
      assert earlier[i] == entries[i] && earlier[j] == entries[j] && entries[|entries| - 1] != entries[j];
      PendingKeepsOrder(earlier, marked, i, j, k);
      assert PendingOf(entries, marked, None)[..k] == PendingOf(earlier, marked, None)[..k];
    }
  }

  lemma WholeBatchKeepsOrder(checks: Checks, s: Sys)
    requires Safe(checks, s)
    ensures KeepsOrder(checks, s.entries, PendingOf(s.entries, s.marked, None))
  {
    hide FateOf;
    var batch := PendingOf(s.entries, s.marked, None);
    forall i: nat, j: nat, k: nat | Behind(checks, s.entries, i, j) && k < |batch| && batch[k] == s.entries[j]
      ensures s.entries[i] in batch[..k]
    {
      BadIsNeverMarked(checks, s, s.entries[i]);
      PendingKeepsOrder(s.entries, s.marked, i, j, k);
    }
  }

  lemma BadIsNeverMarked(checks: Checks, s: Sys, e: Envelope)
    requires Safe(checks, s) && e in s.entries && FateOf(checks, e).Abort?
    ensures e.eventId !in s.marked
  {
    hide FateOf;
  }

  lemma RecordHolds(checks: Checks, s: Sys, e: Envelope)
    requires Safe(checks, s) && Held(checks, s)
    requires forall x :: x in s.entries ==> x.eventId != e.eventId
    ensures Held(checks, s.(entries := s.entries + [e]))
  {
    hide FateOf;
    var s' := s.(entries := s.entries + [e]);
    assert e !in s.entries;
    assert Untouched(s', e) by {
      assert e.eventId !in s.marked;
      forall m | m in s.log ensures m.envelope != e { assert Justified(checks, s.entries, m); }
    }
    forall i: nat, j: nat | Behind(checks, s'.entries, i, j) ensures Untouched(s', s'.entries[j]) {
      if j < |s.entries| { assert Behind(checks, s.entries, i, j); assert Untouched(s, s.entries[j]); }
    }
    forall id | id in s'.drains ensures DrainBlocked(checks, s'.entries, s'.drains[id]) {
      RecordKeepsOrder(checks, s, e, s.drains[id]);
    }
  }

  lemma RecordKeepsOrder(checks: Checks, s: Sys, e: Envelope, d: Drain)
    requires DrainBlocked(checks, s.entries, d) && DrainSound(checks, s, d) && e !in s.entries
    ensures DrainBlocked(checks, s.entries + [e], d)
  {
    hide FateOf, Disposed;
    var longer := s.entries + [e];
    forall i: nat, j: nat, k: nat | Behind(checks, longer, i, j) && k < |d.batch| && d.batch[k] == longer[j]
      ensures longer[i] in d.batch[..k]
    {
      assert d.batch[k] in d.batch;
      assert Behind(checks, s.entries, i, j);
    }
  }

  /** Dealing with the row a drain is at touches no row behind a bad one. */
  lemma RowAtHandHolds(checks: Checks, s: Sys, s': Sys, id: nat)
    requires Safe(checks, s) && Held(checks, s) && id in s.drains
    requires var d := s.drains[id];
             && d.next < |d.batch| && !FateOf(checks, d.batch[d.next]).Abort?
             && s'.entries == s.entries
             && (s'.marked == s.marked || s'.marked == s.marked + {d.batch[d.next].eventId})
             && (forall m :: m in s'.log ==> m in s.log || m.envelope == d.batch[d.next])
             && (s'.drains == s.drains[id := d.(sent := true)]
                 || s'.drains == s.drains[id := Drain(d.batch, d.next + 1, false)])
    ensures Held(checks, s')
  {
    hide RejectMessages, TenantSlug;
    var d := s.drains[id];
    var e := d.batch[d.next];
    assert DrainBlocked(checks, s.entries, d) && DrainSound(checks, s, d) && e in d.batch;
    forall i: nat, j: nat | Behind(checks, s'.entries, i, j) ensures Untouched(s', s'.entries[j]) {
      RowAtHandIsNotBehind(checks, s.entries, d, i, j);
      assert Untouched(s, s.entries[j]);
      if s.entries[j].eventId == e.eventId { SameIdSameEnvelope(s.entries, s.entries[j], e); }
    }
    assert d.batch[..d.next + 1] == d.batch[..d.next] + [e];
  }

  lemma WorkTouchesOneRow(checks: Checks, s: Sys, id: nat, d: Drain, outcome: PublishOutcome)
    requires d.next < |d.batch| && !FateOf(checks, d.batch[d.next]).Abort?
    ensures var s' := WorkOn(checks, s, id, d, outcome);
            && s'.entries == s.entries
            && (s'.marked == s.marked || s'.marked == s.marked + {d.batch[d.next].eventId})
            && (forall m :: m in s'.log ==> m in s.log || m.envelope == d.batch[d.next])
            && (s'.drains == s.drains[id := d.(sent := true)]
                || s'.drains == s.drains[id := Drain(d.batch, d.next + 1, false)])
  {
    hide RejectMessages, TenantSlug;
  }

  lemma StepHolds(checks: Checks, s: Sys, a: Action)
    requires Safe(checks, s) && Held(checks, s) && (a.Begin? ==> a.tenant == None)
    ensures Held(checks, Next(checks, s, a))
  {
    hide Safe, BehindUntouched, DrainBlocked, FateOf, MessageFor;
    match a
    case Record(e) => if forall x :: x in s.entries ==> x.eventId != e.eventId { RecordHolds(checks, s, e); }
                      else { assert Next(checks, s, a) == s; }
    case Begin(id, _) =>
      WholeBatchKeepsOrder(checks, s);
      NothingPassed(checks, s.entries, PendingOf(s.entries, s.marked, None));
      SameRowsUntouched(checks, s, Next(checks, s, a));
    case Crash(id) => SameRowsUntouched(checks, s, Next(checks, s, a));
    case Work(id, outcome) =>
      if id in s.drains {
        var d := s.drains[id];
        if d.next >= |d.batch| || FateOf(checks, d.batch[d.next]).Abort? {
          SameRowsUntouched(checks, s, Next(checks, s, a));
        } else {
          WorkTouchesOneRow(checks, s, id, d, outcome);
          RowAtHandHolds(checks, s, Next(checks, s, a), id);
        }
      }
  }

  lemma NothingPassed(checks: Checks, entries: seq<Envelope>, batch: seq<Envelope>)
    requires KeepsOrder(checks, entries, batch)
    ensures DrainBlocked(checks, entries, Drain(batch, 0, false))
  {
    hide FateOf;
  }

  lemma SameRowsUntouched(checks: Checks, s: Sys, s': Sys)
    requires BehindUntouched(checks, s) && s'.entries == s.entries && s'.marked == s.marked && s'.log == s.log
    ensures BehindUntouched(checks, s')
  {
    hide FateOf;
  }

  lemma {:induction false} RunHolds(checks: Checks, run: seq<Action>)
    requires Unfiltered(run)
    ensures Held(checks, After(checks, run))
  {
    if run != [] {
      var earlier := run[..|run| - 1];
      assert forall a :: a in earlier ==> a in run;
      RunHolds(checks, earlier);
      RunIsSafe(checks, earlier);
      hide Safe, Held;
      StepHolds(checks, After(checks, earlier), run[|run| - 1]);
    }
  }

  /** Over any run of drains of the whole outbox, with crashes and publish failures, a row recorded behind one whose
      checks raise is never published, dead-lettered or marked. */
  lemma BadRowBlocksForGood(checks: Checks, run: seq<Action>, i: nat, j: nat)
    requires Unfiltered(run) && Behind(checks, After(checks, run).entries, i, j)
    ensures Untouched(After(checks, run), After(checks, run).entries[j])
  {
    RunHolds(checks, run);
  }

  /** A drain of one tenant is never ended by a bad row: its batch holds rows of that tenant only, none of which
      raise. */
  lemma {:induction false} TenantDrainNeverAborts(checks: Checks, entries: seq<Envelope>, marked: set<string>,
                                                  tenant: string)
    requires TenantSlug(tenant)
    ensures NoAbort(checks, PendingOf(entries, marked, Some(tenant)))
  {
    hide RejectMessages, TenantSlug;
    if entries != [] {
      TenantDrainNeverAborts(checks, entries[..|entries| - 1], marked, tenant);
    }
  }

  // ------------------------------------------------- a bad row that gets in

  /** A count in a JSON document, as Python reads it: `5` is an int, `5.0` a float. */
  datatype Count = IntCount(n: int) | FloatCount(x: real)

  /** `type: integer, minimum: 1`: to JSON Schema a float without a fraction is an integer. */
  predicate SchemaAccepts(c: Count) {
    match c
    case IntCount(n) => n >= 1
    case FloatCount(x) => x == x.Floor as real && x >= 1.0
  }

  /** `KAnonymityGate`, which the guard asks about an aggregate that is marked k-anonymized. */
  function Gate(cohort: Count, threshold: Count): GuardVerdict {
    if cohort.FloatCount? || threshold.FloatCount? then Malformed
    else if cohort.n < 1 || threshold.n < 1 then Malformed
    else if cohort.n >= threshold.n then Allowed
    else Blocked
  }

  /** The gate allows integer counts of at least one, the cohort no smaller than the threshold; blocks a smaller
      cohort; and raises for anything else. */
  lemma GateDecides(cohort: Count, threshold: Count)
    ensures var whole := cohort.IntCount? && threshold.IntCount? && cohort.n > 0 && threshold.n > 0;
            && (Gate(cohort, threshold) == Allowed <==> whole && threshold.n <= cohort.n)
            && (Gate(cohort, threshold) == Blocked <==> whole && cohort.n < threshold.n)
            && (Gate(cohort, threshold) == Malformed <==> !whole)
  {}

  /** An aggregate whose counts the schema accepts ends the drain exactly when one of them is written as a float. */
  lemma AggregateAbortsIffFloat(checks: Checks, e: Envelope, cohort: Count, threshold: Count)
    requires e.context == Aggregate && checks.guard(e) == Gate(cohort, threshold)
    requires SchemaAccepts(cohort) && SchemaAccepts(threshold)
    ensures FateOf(checks, e).Abort? <==> cohort.FloatCount? || threshold.FloatCount?
  {
    hide RejectMessages;
  }

  /** Every aggregate has the cohort size 5.0 and the threshold 5; nothing else is wrong with any row. */
  function FloatCohort(): Checks {
    Checks((e: Envelope) => Gate(FloatCount(5.0), IntCount(5)), (e: Envelope) => [], map["topic" := "service"])
  }

  const FLOAT_ROW: Envelope := Envelope("bad", Aggregate, None, Some("topic"), "service", "1", "")
  const SOUND_ROW: Envelope := Envelope("good", System, None, Some("topic"), "service", "2", "")

  /** It does happen: the schema accepts the aggregate, and behind it stands a sound row. The drain ends at the first
      row with nothing published or marked; alone, the second row is published. */
  lemma FloatCohortEndsTheDrain()
    ensures SchemaAccepts(FloatCount(5.0)) && SchemaAccepts(IntCount(5))
    ensures var start := Drained({}, [], DrainResult([], [], [], []));
            var sent := Drained({"good"}, [Message("topic", SOUND_ROW, [])], DrainResult(["good"], [], [], []));
            && DrainFrom(FloatCohort(), start, [FLOAT_ROW, SOUND_ROW], [Accepted, Accepted], 0) == (start, false)
            && DrainFrom(FloatCohort(), start, [SOUND_ROW], [Accepted], 0) == (sent, true)
  {
    var checks, start := FloatCohort(), Drained({}, [], DrainResult([], [], [], []));
    assert FateOf(checks, FLOAT_ROW).Abort? && FateOf(checks, SOUND_ROW) == Publish("topic");
    var sent := DrainOne(checks, start, SOUND_ROW, Accepted);
    assert sent.marked == {"good"} && sent.log == [Message("topic", SOUND_ROW, [])];
    assert sent.result.published == ["good"];
    assert start.marked == {} && start.log == [];
    assert DrainFrom(checks, sent, [SOUND_ROW], [Accepted], 1) == (sent, true);
  }
}

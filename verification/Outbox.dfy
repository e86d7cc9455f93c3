/** The transactional outbox, its drain onto topics, and the drainer as a process that may fail or crash at any step. */
module Outbox {
  import opened Common

  datatype ContextType = Tenant | System | Aggregate

  datatype Envelope = Envelope(
    eventId: string,
    context: ContextType,
    tenantId: Option<string>,
    eventType: Option<string>,
    producer: string,
    idempotencyKey: string,
    payload: string)

  /** How `guard_aggregate_publish` ends: it returns, raises its privacy error, or raises for malformed input. */
  datatype GuardVerdict = Allowed | Blocked | Malformed

  /** The checks the drainer runs but does not define: the privacy guard, schema validation, and the topic catalog. */
  datatype Checks = Checks(
    guard: Envelope -> GuardVerdict,
    structural: Envelope -> seq<string>,
    catalog: map<string, string>)

  // ------------------------------------------------------------- routing

  /** A tenant id that `TenantId` accepts. */
  predicate TenantSlug(t: string) {
    3 <= |t| <= 32 && (forall c :: c in t ==> SlugChar(c)) && t[0] != '-' && t[|t| - 1] != '-'
  }

  function TopicProducerErrors(catalog: map<string, string>, e: Envelope): seq<string> {
    if e.eventType.None? || e.eventType.value !in catalog then ["unknown topic"]
    else if catalog[e.eventType.value] != e.producer then ["unexpected producer"]
    else []
  }

  function RejectMessages(checks: Checks, e: Envelope): seq<string> {
    if checks.structural(e) != [] then checks.structural(e) else TopicProducerErrors(checks.catalog, e)
  }

  function DlqTopicFor(topic: string): string {
    topic + ".dlq"
  }

  function DlqTopic(e: Envelope): string {
    if e.eventType.Some? then DlqTopicFor(e.eventType.value) else "envelope.malformed.v1.dlq"
  }

  /** What one drain means to do with an envelope. `Abort` is an exception that `drain_once` does not catch. */
  datatype Fate = Suppress | DeadLetter(topic: string) | Publish(topic: string) | Abort

  function FateOf(checks: Checks, e: Envelope): Fate {
    if e.context == Tenant && e.tenantId.Some? && !TenantSlug(e.tenantId.value) then Abort
    else if e.context == Aggregate && checks.guard(e) == Malformed then Abort
    else if e.context == Aggregate && checks.guard(e) == Blocked then Suppress
    else if RejectMessages(checks, e) != [] then DeadLetter(DlqTopic(e))
    else Publish(e.eventType.value)
  }

  /** One message on a topic; dead letters carry the reasons for rejection. */
  datatype Message = Message(topic: string, envelope: Envelope, reasons: seq<string>)

  function MessageFor(checks: Checks, e: Envelope): Message
    requires FateOf(checks, e).DeadLetter? || FateOf(checks, e).Publish?
  {
    Message(FateOf(checks, e).topic, e, if FateOf(checks, e).DeadLetter? then RejectMessages(checks, e) else [])
  }

  /** How a publish call ends; a failure may be reported although the broker took the message. */
  datatype PublishOutcome = Accepted | Refused | AcceptedThenFailed

  // ------------------------------------------------------- outbox contents

  function PendingOf(entries: seq<Envelope>, published: set<string>, tenant: Option<string>): (batch: seq<Envelope>)
    ensures forall e :: e in batch ==> e in entries && e.eventId !in published
    ensures forall e :: e in entries && e.eventId !in published && tenant.None? ==> e in batch
  {
    if entries == [] then [] else
      var earlier, last := PendingOf(entries[..|entries| - 1], published, tenant), entries[|entries| - 1];
      if last.eventId !in published && (tenant.None? || (last.context == Tenant && last.tenantId == tenant))
      then earlier + [last] else earlier
  }

  ghost predicate DistinctIds(es: seq<Envelope>) {
    forall i, j :: 0 <= i < j < |es| ==> es[i].eventId != es[j].eventId
  }

  lemma {:induction false} PendingIsDistinct(entries: seq<Envelope>, published: set<string>, tenant: Option<string>)
    requires DistinctIds(entries)
    ensures DistinctIds(PendingOf(entries, published, tenant))
  {
    if entries != [] {
      var earlier, last := entries[..|entries| - 1], entries[|entries| - 1];
      PendingIsDistinct(earlier, published, tenant);
      forall e | e in PendingOf(earlier, published, tenant) ensures e.eventId != last.eventId {
        var i :| 0 <= i < |earlier| && earlier[i] == e;
        assert entries[i] == e;
      }
    }
  }

  // ------------------------------------------------------------ one drain

  datatype DrainResult = DrainResult(published: seq<string>, deadLettered: seq<string>, suppressed: seq<string>,
                                     retriedPending: seq<string>)

  /** The outbox marks, the topics and the tally while a batch is drained. */
  datatype Drained = Drained(marked: set<string>, log: seq<Message>, result: DrainResult)

  /** One turn of the loop. */
  function DrainOne(checks: Checks, d: Drained, e: Envelope, outcome: PublishOutcome): Drained
    requires !FateOf(checks, e).Abort?
  {
    match FateOf(checks, e)
    case Suppress =>
      d.(marked := d.marked + {e.eventId}, result := d.result.(suppressed := d.result.suppressed + [e.eventId]))
    case DeadLetter(_) =>
      var sent := d.(log := if outcome == Refused then d.log else d.log + [MessageFor(checks, e)]);
      if outcome == Accepted
      then sent.(marked := d.marked + {e.eventId},
                 result := d.result.(deadLettered := d.result.deadLettered + [e.eventId]))
      else sent.(result := d.result.(retriedPending := d.result.retriedPending + [e.eventId]))
    case Publish(_) =>
      var sent := d.(log := if outcome == Refused then d.log else d.log + [MessageFor(checks, e)]);
      if outcome == Accepted
      then sent.(marked := d.marked + {e.eventId}, result := d.result.(published := d.result.published + [e.eventId]))
      else sent.(result := d.result.(retriedPending := d.result.retriedPending + [e.eventId]))
  }

  /** The loop from the `n`th envelope on; the flag says whether it ran to the end. */
  function DrainFrom(checks: Checks, d: Drained, batch: seq<Envelope>, outcomes: seq<PublishOutcome>, n: nat)
      : (Drained, bool)
    requires n <= |batch| <= |outcomes|
    decreases |batch| - n
  {
    if n == |batch| then (d, true)
    else if FateOf(checks, batch[n]).Abort? then (d, false)
    else DrainFrom(checks, DrainOne(checks, d, batch[n], outcomes[n]), batch, outcomes, n + 1)
  }

  class OutboxDrainer {
    const checks: Checks
    var entries: seq<Envelope>
    var marked: set<string>
    var log: seq<Message>

    constructor (checks: Checks)
      ensures this.checks == checks && entries == [] && marked == {} && log == []
    {
      this.checks, entries, marked, log := checks, [], {}, [];
    }

    /** `drain_once`; `outcomes` is how the publisher answers for each row of the batch. */
    method DrainOnce(tenant: Option<string>, outcomes: seq<PublishOutcome>)
        returns (result: DrainResult, completed: bool)
      requires |outcomes| >= |PendingOf(entries, marked, tenant)|
      modifies this
      ensures entries == old(entries)
      ensures (Drained(marked, log, result), completed)
           == DrainFrom(checks, Drained(old(marked), old(log), DrainResult([], [], [], [])),
                        PendingOf(old(entries), old(marked), tenant), outcomes, 0)
    {
      var pending := PendingOf(entries, marked, tenant);
      var published, deadLettered, suppressed, retriedPending := [], [], [], [];
      ghost var start := Drained(marked, log, DrainResult([], [], [], []));
      for i := 0 to |pending|
        invariant entries == old(entries)
        invariant DrainFrom(checks, start, pending, outcomes, 0)
               == DrainFrom(checks,
                            Drained(marked, log, DrainResult(published, deadLettered, suppressed, retriedPending)),
                            pending, outcomes, i)
      {
        var envelope := pending[i];
        var fate := FateOf(checks, envelope);
        if fate.Abort? {
          return DrainResult(published, deadLettered, suppressed, retriedPending), false;
        }
        if fate.Suppress? {
          marked := marked + {envelope.eventId};
          suppressed := suppressed + [envelope.eventId];
          continue;
        }
        if outcomes[i] != Refused {
          log := log + [MessageFor(checks, envelope)];
        }
        if outcomes[i] != Accepted {
          retriedPending := retriedPending + [envelope.eventId];
          continue;
        }
        marked := marked + {envelope.eventId};
        if fate.DeadLetter? {
          deadLettered := deadLettered + [envelope.eventId];
        } else {
          published := published + [envelope.eventId];
        }
      }
      result, completed := DrainResult(published, deadLettered, suppressed, retriedPending), true;
    }
  }

  // --------------------------------------------- what one drain guarantees

  ghost function IdsOf(es: seq<Envelope>): seq<string> {
    if es == [] then [] else IdsOf(es[..|es| - 1]) + [es[|es| - 1].eventId]
  }

  function Tally(r: DrainResult): multiset<string> {
    multiset(r.published) + multiset(r.deadLettered) + multiset(r.suppressed) + multiset(r.retriedPending)
  }

  ghost predicate NoAbort(checks: Checks, batch: seq<Envelope>) {
    forall e :: e in batch ==> !FateOf(checks, e).Abort?
  }

  lemma DrainOneTally(checks: Checks, d: Drained, e: Envelope, outcome: PublishOutcome)
    requires !FateOf(checks, e).Abort?
    ensures Tally(DrainOne(checks, d, e, outcome).result) == Tally(d.result) + multiset{e.eventId}
  {
    hide FateOf, RejectMessages;
  }

  /** The four lists partition the pending batch: a drain that ends normally accounts for every row exactly once. */
  lemma {:induction false} ListsPartitionTheBatch(checks: Checks, d: Drained, batch: seq<Envelope>,
                                                  outcomes: seq<PublishOutcome>, n: nat)
    requires n <= |batch| <= |outcomes|
    ensures var (after, completed) := DrainFrom(checks, d, batch, outcomes, n);
            && (completed <==> NoAbort(checks, batch[n..]))
            && (completed ==> Tally(after.result) == Tally(d.result) + multiset(IdsOf(batch[n..])))
    decreases |batch| - n
  {
    if n < |batch| {
      var rest := batch[n + 1..];
      assert batch[n..] == [batch[n]] + rest;
      FirstId(batch[n], rest);
      if !FateOf(checks, batch[n]).Abort? {
        DrainOneTally(checks, d, batch[n], outcomes[n]);
        ListsPartitionTheBatch(checks, DrainOne(checks, d, batch[n], outcomes[n]), batch, outcomes, n + 1);
        assert forall e :: e in batch[n..] <==> e == batch[n] || e in rest;
      } else {
        assert batch[n] in batch[n..];
      }
    } else {
      assert batch[n..] == [];
    }
  }

  lemma {:induction false} FirstId(e: Envelope, rest: seq<Envelope>)
    ensures multiset(IdsOf([e] + rest)) == multiset{e.eventId} + multiset(IdsOf(rest))
  {
    if rest == [] {
      assert [e] + rest == [e];
      assert IdsOf([e]) == IdsOf([]) + [e.eventId];
    } else {
      var shorter, last := rest[..|rest| - 1], rest[|rest| - 1];
      assert ([e] + rest)[..|rest|] == [e] + shorter;
      FirstId(e, shorter);
      assert IdsOf([e] + rest) == IdsOf([e] + shorter) + [last.eventId];
      assert IdsOf(rest) == IdsOf(shorter) + [last.eventId];
    }
  }

  /** A row whose checks raise ends the drain: no row behind it is touched on this drain. */
  lemma {:induction false} AbortBlocksTheRest(checks: Checks, d: Drained, batch: seq<Envelope>,
                                              outcomes: seq<PublishOutcome>, n: nat,
                                              bad: nat, j: nat)
    requires n <= bad < j < |batch| <= |outcomes|
    requires DistinctIds(batch) && FateOf(checks, batch[bad]).Abort?
    ensures var (after, completed) := DrainFrom(checks, d, batch, outcomes, n);
            && !completed
            && (batch[j].eventId in after.marked <==> batch[j].eventId in d.marked)
            && (forall m :: m in after.log && m.envelope == batch[j] ==> m in d.log)
    decreases |batch| - n
  {
    if !FateOf(checks, batch[n]).Abort? {
      AbortBlocksTheRest(checks, DrainOne(checks, d, batch[n], outcomes[n]), batch, outcomes, n + 1, bad, j);
      assert batch[n].eventId != batch[j].eventId;
    }
  }

  // ------------------------------------------------------- the whole system

  /** A drain in progress: its batch, the row it is at, and whether that row has been handed to the broker and not yet
      marked. */
  datatype Drain = Drain(batch: seq<Envelope>, next: nat, sent: bool)

  /** Outbox, topics, and any number of drainers. */
  datatype Sys = Sys(entries: seq<Envelope>, marked: set<string>, log: seq<Message>, drains: map<nat, Drain>)

  datatype Action =
    | Record(envelope: Envelope)
    | Begin(drainer: nat, tenant: Option<string>)
    | Work(drainer: nat, outcome: PublishOutcome)
    | Crash(drainer: nat)

  function WorkOn(checks: Checks, s: Sys, id: nat, d: Drain, outcome: PublishOutcome): Sys {
    if d.next >= |d.batch| then s.(drains := s.drains - {id})
    else
      var e := d.batch[d.next];
      var advance := s.drains[id := Drain(d.batch, d.next + 1, false)];
      match FateOf(checks, e)
      case Abort => s.(drains := s.drains - {id})
      case Suppress => s.(marked := s.marked + {e.eventId}, drains := advance)
      case _ =>
        if d.sent then s.(marked := s.marked + {e.eventId}, drains := advance)
        else if outcome == Refused then s.(drains := advance)
        else if outcome == AcceptedThenFailed then s.(log := s.log + [MessageFor(checks, e)], drains := advance)
        else s.(log := s.log + [MessageFor(checks, e)], drains := s.drains[id := d.(sent := true)])
  }

  function Next(checks: Checks, s: Sys, a: Action): Sys {
    match a
    case Record(e) => if exists x :: x in s.entries && x.eventId == e.eventId then s else s.(entries := s.entries + [e])
    case Begin(id, tenant) =>
      if id in s.drains then s
      else s.(drains := s.drains[id := Drain(PendingOf(s.entries, s.marked, tenant), 0, false)])
    case Work(id, outcome) => if id !in s.drains then s else WorkOn(checks, s, id, s.drains[id], outcome)
    case Crash(id) => s.(drains := s.drains - {id})
  }

  function After(checks: Checks, run: seq<Action>): Sys {
    if run == [] then Sys([], {}, [], map[]) else Next(checks, After(checks, run[..|run| - 1]), run[|run| - 1])
  }

  // ------------------------------------------------------- whole-run safety

  /** The message an envelope calls for is on its topic; a suppressed envelope calls for none. */
  ghost predicate Disposed(checks: Checks, log: seq<Message>, e: Envelope) {
    match FateOf(checks, e)
    case Abort => false
    case Suppress => true
    case _ => MessageFor(checks, e) in log
  }

  ghost predicate Justified(checks: Checks, entries: seq<Envelope>, m: Message) {
    && m.envelope in entries
    && (FateOf(checks, m.envelope).DeadLetter? || FateOf(checks, m.envelope).Publish?)
    && m == MessageFor(checks, m.envelope)
  }

  ghost predicate DrainSound(checks: Checks, s: Sys, d: Drain) {
    && d.next <= |d.batch|
    && (forall e :: e in d.batch ==> e in s.entries)
    && (d.sent ==> d.next < |d.batch| && Disposed(checks, s.log, d.batch[d.next]))
  }

  ghost predicate MarkedDisposed(checks: Checks, s: Sys) {
    forall e :: e in s.entries && e.eventId in s.marked ==> Disposed(checks, s.log, e)
  }

  ghost predicate LogJustified(checks: Checks, s: Sys) {
    forall m :: m in s.log ==> Justified(checks, s.entries, m)
  }

  ghost predicate DrainsSound(checks: Checks, s: Sys) {
    forall id :: id in s.drains ==> DrainSound(checks, s, s.drains[id])
  }

  ghost predicate MarkedRecorded(s: Sys) {
    forall id :: id in s.marked ==> exists e :: e in s.entries && e.eventId == id
  }

  ghost predicate Safe(checks: Checks, s: Sys) {
    && DistinctIds(s.entries)
    && MarkedRecorded(s)
    && MarkedDisposed(checks, s)
    && LogJustified(checks, s)
    && DrainsSound(checks, s)
  }

  lemma SameIdSameEnvelope(es: seq<Envelope>, a: Envelope, b: Envelope)
    requires DistinctIds(es) && a in es && b in es && a.eventId == b.eventId
    ensures a == b
  {
    var i :| 0 <= i < |es| && es[i] == a;
    var j :| 0 <= j < |es| && es[j] == b;
    assert !(i < j) && !(j < i);
  }

  /** Marking a recorded envelope that has been disposed of, and moving its drain on, keeps the system safe. */
  lemma MarkIsSafe(checks: Checks, s: Sys, id: nat, d: Drain, e: Envelope)
    requires Safe(checks, s) && e in s.entries && Disposed(checks, s.log, e)
    requires DrainSound(checks, s, d)
    ensures Safe(checks, s.(marked := s.marked + {e.eventId}, drains := s.drains[id := d]))
  {
    hide FateOf, MessageFor, Disposed;
    var s' := s.(marked := s.marked + {e.eventId}, drains := s.drains[id := d]);
    forall x | x in s'.entries && x.eventId in s'.marked ensures Disposed(checks, s'.log, x) {
      if x.eventId == e.eventId {
        SameIdSameEnvelope(s.entries, x, e);
      }
    }
    hide DistinctIds;
    assert MarkedRecorded(s');
  }

  /** Publishing an envelope on the topic it calls for keeps the system safe. */
  lemma SendIsSafe(checks: Checks, s: Sys, id: nat, d: Drain, e: Envelope)
    requires Safe(checks, s) && e in s.entries
    requires FateOf(checks, e).DeadLetter? || FateOf(checks, e).Publish?
    requires DrainSound(checks, s.(log := s.log + [MessageFor(checks, e)]), d)
    ensures Safe(checks, s.(log := s.log + [MessageFor(checks, e)], drains := s.drains[id := d]))
  {
    var s' := s.(log := s.log + [MessageFor(checks, e)], drains := s.drains[id := d]);
    hide DistinctIds, MarkedRecorded, RejectMessages, TenantSlug;
    assert forall x :: Disposed(checks, s.log, x) ==> Disposed(checks, s'.log, x);
    forall i | i in s'.drains ensures DrainSound(checks, s', s'.drains[i]) {
      if i != id {
        assert DrainSound(checks, s, s.drains[i]);
      }
    }
  }

  lemma AdvanceIsSafe(checks: Checks, s: Sys, id: nat, d: Drain)
    requires Safe(checks, s) && DrainSound(checks, s, d)
    ensures Safe(checks, s.(drains := s.drains[id := d]))
  {
    hide DistinctIds, Disposed, FateOf, Justified;
  }

  lemma WorkIsSafe(checks: Checks, s: Sys, id: nat, outcome: PublishOutcome)
    requires Safe(checks, s) && id in s.drains
    ensures Safe(checks, WorkOn(checks, s, id, s.drains[id], outcome))
  {
    var d := s.drains[id];
    assert DrainSound(checks, s, d);
    hide Safe, RejectMessages, TenantSlug;
    if d.next >= |d.batch| {
      DropIsSafe(checks, s, id);
    } else {
      var e := d.batch[d.next];
      assert e in d.batch;
      var moved := Drain(d.batch, d.next + 1, false);
      match FateOf(checks, e) {
        case Abort => DropIsSafe(checks, s, id);
        case Suppress => MarkIsSafe(checks, s, id, moved, e);
        case _ =>
          if d.sent {
            MarkIsSafe(checks, s, id, moved, e);
          } else if outcome == Refused {
            AdvanceIsSafe(checks, s, id, moved);
          } else if outcome == AcceptedThenFailed {
            SendIsSafe(checks, s, id, moved, e);
          } else {
            SendIsSafe(checks, s, id, d.(sent := true), e);
          }
      }
    }
  }

  lemma DropIsSafe(checks: Checks, s: Sys, id: nat)
    requires Safe(checks, s)
    ensures Safe(checks, s.(drains := s.drains - {id}))
  {
    hide DistinctIds, Disposed, FateOf, Justified;
    var s' := s.(drains := s.drains - {id});
    forall i | i in s'.drains ensures DrainSound(checks, s', s'.drains[i]) {
      assert DrainSound(checks, s, s.drains[i]);
    }
  }

  lemma RecordIsSafe(checks: Checks, s: Sys, e: Envelope)
    requires Safe(checks, s)
    requires forall x :: x in s.entries ==> x.eventId != e.eventId
    ensures Safe(checks, s.(entries := s.entries + [e]))
  {
    hide Disposed, FateOf;
    var s' := s.(entries := s.entries + [e]);
    assert forall x :: x in s'.entries <==> x in s.entries || x == e;
    forall id | id in s'.marked ensures exists x :: x in s'.entries && x.eventId == id {
      var x :| x in s.entries && x.eventId == id;
      assert x in s'.entries;
    }
    assert MarkedDisposed(checks, s');
    forall i | i in s'.drains ensures DrainSound(checks, s', s'.drains[i]) {
      assert DrainSound(checks, s, s.drains[i]);
    }
  }

  /** Over every run of recordings and drains, with publish failures and crashes between any two steps, the system stays
      safe. */
  lemma {:induction false} RunIsSafe(checks: Checks, run: seq<Action>)
    ensures Safe(checks, After(checks, run))
  {
    if run == [] {
    } else {
      var s, a := After(checks, run[..|run| - 1]), run[|run| - 1];
      RunIsSafe(checks, run[..|run| - 1]);
      hide Safe, After;
      match a {
        case Record(e) =>
          if forall x :: x in s.entries ==> x.eventId != e.eventId {
            RecordIsSafe(checks, s, e);
          }
        case Begin(id, tenant) =>
          AdvanceIsSafe(checks, s, id, Drain(PendingOf(s.entries, s.marked, tenant), 0, false));
        case Work(id, outcome) =>
          if id in s.drains {
            WorkIsSafe(checks, s, id, outcome);
          }
        case Crash(id) =>
          DropIsSafe(checks, s, id);
      }
      assert After(checks, run) == Next(checks, s, a) by { AfterLast(checks, run); }
    }
  }

  lemma AfterLast(checks: Checks, run: seq<Action>)
    requires run != []
    ensures After(checks, run) == Next(checks, After(checks, run[..|run| - 1]), run[|run| - 1])
  {}

  lemma AfterOneMore(checks: Checks, run: seq<Action>, a: Action)
    ensures After(checks, run + [a]) == Next(checks, After(checks, run), a)
  {
    assert (run + [a])[..|run|] == run;
  }

  /** A call of `drain_once` is a run of the system: the steps of one drainer with nothing in between. */
  lemma DrainIsARun(checks: Checks, run: seq<Action>, id: nat, tenant: Option<string>, outcomes: seq<PublishOutcome>)
    returns (longer: seq<Action>)
    requires id !in After(checks, run).drains
    requires |outcomes| >= |PendingOf(After(checks, run).entries, After(checks, run).marked, tenant)|
    ensures run <= longer
    ensures var s, s' := After(checks, run), After(checks, longer);
            var drained := DrainFrom(checks, Drained(s.marked, s.log, DrainResult([], [], [], [])),
                                     PendingOf(s.entries, s.marked, tenant), outcomes, 0).0;
            s'.entries == s.entries && s'.marked == drained.marked && s'.log == drained.log
  {
    var s := After(checks, run);
    AfterOneMore(checks, run, Begin(id, tenant));
    longer := DrainSteps(checks, run + [Begin(id, tenant)], id, PendingOf(s.entries, s.marked, tenant), outcomes, 0,
                         DrainResult([], [], [], []));
  }

  lemma {:induction false} DrainSteps(checks: Checks, run: seq<Action>, id: nat, batch: seq<Envelope>,
                                      outcomes: seq<PublishOutcome>,
                                      n: nat, result: DrainResult)
    returns (longer: seq<Action>)
    requires n <= |batch| <= |outcomes|
    requires id in After(checks, run).drains && After(checks, run).drains[id] == Drain(batch, n, false)
    ensures run <= longer
    ensures var s, s' := After(checks, run), After(checks, longer);
            var drained := DrainFrom(checks, Drained(s.marked, s.log, result), batch, outcomes, n).0;
            s'.entries == s.entries && s'.marked == drained.marked && s'.log == drained.log
    decreases |batch| - n
  {
    var s := After(checks, run);
    longer := run;
    if n < |batch| && !FateOf(checks, batch[n]).Abort? {
      var step := OneRow(checks, run, id, batch, outcomes[n], n);
      var d := DrainOne(checks, Drained(s.marked, s.log, result), batch[n], outcomes[n]);
      longer := DrainSteps(checks, step, id, batch, outcomes, n + 1, d.result);
    }
  }

  /** The one or two steps that deal with one row. */
  lemma OneRow(checks: Checks, run: seq<Action>, id: nat, batch: seq<Envelope>, outcome: PublishOutcome, n: nat)
    returns (longer: seq<Action>)
    requires n < |batch| && !FateOf(checks, batch[n]).Abort?
    requires id in After(checks, run).drains && After(checks, run).drains[id] == Drain(batch, n, false)
    ensures run <= longer
    ensures var s, s' := After(checks, run), After(checks, longer);
            var d := DrainOne(checks, Drained(s.marked, s.log, DrainResult([], [], [], [])), batch[n], outcome);
            && s'.entries == s.entries && s'.marked == d.marked && s'.log == d.log
            && id in s'.drains && s'.drains[id] == Drain(batch, n + 1, false)
  {
    AfterOneMore(checks, run, Work(id, outcome));
    longer := run + [Work(id, outcome)];
    hide After, RejectMessages, TenantSlug;
    if !FateOf(checks, batch[n]).Suppress? && outcome == Accepted {
      AfterOneMore(checks, longer, Work(id, outcome));
      longer := longer + [Work(id, outcome)];
    }
  }

  /** No event leaves pending without its message on its main topic, its dead-letter topic, or a suppression verdict. */
  lemma NothingIsLost(checks: Checks, run: seq<Action>, e: Envelope)
    requires e in After(checks, run).entries
    ensures e in PendingOf(After(checks, run).entries, After(checks, run).marked, None)
         || FateOf(checks, e) == Suppress
         || (!FateOf(checks, e).Abort? && MessageFor(checks, e) in After(checks, run).log)
  {
    RunIsSafe(checks, run);
    hide RejectMessages, TenantSlug;
  }

  /** A guard-suppressed aggregate is on no topic, main or dead-letter; and every message on a topic is one that a
      recorded envelope calls for, so no event is ever on both. */
  lemma SuppressedIsNeverPublished(checks: Checks, run: seq<Action>, m: Message)
    requires m in After(checks, run).log
    ensures !(m.envelope.context == Aggregate && checks.guard(m.envelope) != Allowed)
    ensures m.envelope in After(checks, run).entries
    ensures if RejectMessages(checks, m.envelope) == []
            then m.envelope.eventType == Some(m.topic) && m.reasons == []
            else m.topic == DlqTopic(m.envelope) && m.reasons == RejectMessages(checks, m.envelope)
  {
    RunIsSafe(checks, run);
    assert Justified(checks, After(checks, run).entries, m);
  }
}

/** Where each recorded event goes: which list of a drain, which topic, and with which reasons; told from the checks
    on the envelope themselves. */
module OutboxTopics {
  import opened Common
  import opened Outbox

  /** The envelope validates, its type is in the catalog, and it comes from the producer registered there. */
  predicate Valid(checks: Checks, e: Envelope) {
    && checks.structural(e) == []
    && e.eventType.Some? && e.eventType.value in checks.catalog
    && checks.catalog[e.eventType.value] == e.producer
  }

  /** The privacy guard blocks it. */
  predicate Withheld(checks: Checks, e: Envelope) {
    e.context.Aggregate? && checks.guard(e).Blocked?
  }

  /** A check raises something the drain does not catch: the guard on malformed input, or the tenant id's pattern. */
  predicate Raises(checks: Checks, e: Envelope) {
    || (e.context.Aggregate? && checks.guard(e).Malformed?)
    || (e.context.Tenant? && e.tenantId.Some? && !TenantSlug(e.tenantId.value))
  }

  // -------------------------------------------------------------- the topics

  predicate EndsIn(topic: string, suffix: string) {
    |topic| >= |suffix| && topic[|topic| - |suffix|..] == suffix
  }

  /** The message an envelope goes out with: on the topic of its type if it is valid; and else, with the reasons, on the
      dead-letter topic of its type, or on the one for envelopes without a type. */
  ghost predicate GoesOutAs(checks: Checks, e: Envelope, m: Message) {
    && m.envelope == e
    && (Valid(checks, e) ==> e.eventType == Some(m.topic) && m.reasons == [])
    && (!Valid(checks, e) ==>
          && m.reasons != [] && EndsIn(m.topic, ".dlq")
          && (checks.structural(e) != [] ==> m.reasons == checks.structural(e))
          && (checks.structural(e) == [] ==>
                m.reasons == (if e.eventType.Some? && e.eventType.value in checks.catalog
                              then ["unexpected producer"] else ["unknown topic"]))
          && (e.eventType.Some? ==> m.topic[..|m.topic| - 4] == e.eventType.value && m.topic != e.eventType.value)
          && (e.eventType.None? ==> m.topic == "envelope.malformed.v1.dlq"))
  }

  lemma MessageGoesOut(checks: Checks, e: Envelope)
    requires FateOf(checks, e).DeadLetter? || FateOf(checks, e).Publish?
    ensures GoesOutAs(checks, e, MessageFor(checks, e))
    ensures !Withheld(checks, e) && !Raises(checks, e)
    ensures FateOf(checks, e).Publish? <==> Valid(checks, e)
  {
    hide TenantSlug;
    var m := MessageFor(checks, e);
    if !Valid(checks, e) && e.eventType.Some? {
      assert m.topic == e.eventType.value + ".dlq";
    }
  }

  /** Over every run: each message on a topic is that of a recorded event, goes out as its checks say, and is of no
      event that is withheld or on which a check raises. */
  lemma TopicsAre(checks: Checks, run: seq<Action>, m: Message)
    requires m in After(checks, run).log
    ensures m.envelope in After(checks, run).entries
    ensures GoesOutAs(checks, m.envelope, m)
    ensures !Withheld(checks, m.envelope) && !Raises(checks, m.envelope)
  {
    RunIsSafe(checks, run);
    assert Justified(checks, After(checks, run).entries, m);
    MessageGoesOut(checks, m.envelope);
  }

  /** Over every run, an event is on one topic only: all its messages are the same. */
  lemma OneTopicPerEvent(checks: Checks, run: seq<Action>, m: Message, n: Message)
    requires m in After(checks, run).log && n in After(checks, run).log
    requires m.envelope.eventId == n.envelope.eventId
    ensures m == n
    ensures Valid(checks, m.envelope) ==> !EndsIn(m.topic, m.envelope.eventType.value + ".dlq")
  {
    RunIsSafe(checks, run);
    hide After, FateOf, MessageFor;
    var s := After(checks, run);
    assert Justified(checks, s.entries, m) && Justified(checks, s.entries, n);
    SameIdSameEnvelope(s.entries, m.envelope, n.envelope);
    TopicsAre(checks, run, m);
  }

  /** Over every run, an event that is no longer pending has gone out as its checks say, or is withheld. */
  lemma MarkedHasGoneOut(checks: Checks, run: seq<Action>, e: Envelope)
    requires e in After(checks, run).entries && e.eventId in After(checks, run).marked
    ensures !Raises(checks, e)
    ensures Withheld(checks, e) || exists m :: m in After(checks, run).log && GoesOutAs(checks, e, m)
  {
    RunIsSafe(checks, run);
    hide After, GoesOutAs;
    var s := After(checks, run);
    assert Disposed(checks, s.log, e);
    if FateOf(checks, e).DeadLetter? || FateOf(checks, e).Publish? {
      MessageGoesOut(checks, e);
    }
    hide RejectMessages, TenantSlug;
  }

  // --------------------------------------------------------------- one drain

  datatype List = Published | DeadLettered | Suppressed | RetriedPending

  function Ids(r: DrainResult, list: List): seq<string> {
    match list
    case Published => r.published
    case DeadLettered => r.deadLettered
    case Suppressed => r.suppressed
    case RetriedPending => r.retriedPending
  }

  /** The list a row belongs in. */
  predicate Belongs(checks: Checks, e: Envelope, outcome: PublishOutcome, list: List) {
    match list
    case Suppressed => Withheld(checks, e)
    case RetriedPending => !Withheld(checks, e) && !outcome.Accepted?
    case Published => !Withheld(checks, e) && outcome.Accepted? && Valid(checks, e)
    case DeadLettered => !Withheld(checks, e) && outcome.Accepted? && !Valid(checks, e)
  }

  /** The ids of the rows from the `n`th on that belong in a list, in the order of the batch. */
  function IdsFor(checks: Checks, batch: seq<Envelope>, outcomes: seq<PublishOutcome>, n: nat, list: List): seq<string>
    requires n <= |batch| <= |outcomes|
    decreases |batch| - n
  {
    if n == |batch| then []
    else (if Belongs(checks, batch[n], outcomes[n], list) then [batch[n].eventId] else [])
         + IdsFor(checks, batch, outcomes, n + 1, list)
  }

  /** The rows from the `n`th on that the broker took. */
  function Taken(checks: Checks, batch: seq<Envelope>, outcomes: seq<PublishOutcome>, n: nat): seq<Envelope>
    requires n <= |batch| <= |outcomes|
    decreases |batch| - n
  {
    if n == |batch| then []
    else (if Withheld(checks, batch[n]) || outcomes[n].Refused? then [] else [batch[n]])
         + Taken(checks, batch, outcomes, n + 1)
  }

  ghost predicate GoOutAs(checks: Checks, rows: seq<Envelope>, sent: seq<Message>) {
    |sent| == |rows| && forall i :: 0 <= i < |rows| ==> GoesOutAs(checks, rows[i], sent[i])
  }

  /** The row is settled: its id is marked, unless the publish failed. */
  ghost predicate Settled(checks: Checks, batch: seq<Envelope>, outcomes: seq<PublishOutcome>, n: nat, id: string)
    requires n <= |batch| <= |outcomes|
  {
    exists k :: n <= k < |batch| && batch[k].eventId == id && (Withheld(checks, batch[k]) || outcomes[k].Accepted?)
  }

  /** One turn of the loop. */
  lemma OneRowDrained(checks: Checks, d: Drained, e: Envelope, outcome: PublishOutcome)
    requires !FateOf(checks, e).Abort?
    ensures var d1 := DrainOne(checks, d, e, outcome);
            && (forall list :: Ids(d1.result, list)
                               == Ids(d.result, list) + (if Belongs(checks, e, outcome, list) then [e.eventId] else []))
            && d1.marked == (if Belongs(checks, e, outcome, RetriedPending) then d.marked else d.marked + {e.eventId})
            && (if Withheld(checks, e) || outcome.Refused? then d1.log == d.log
                else exists m :: GoesOutAs(checks, e, m) && d1.log == d.log + [m])
  {
    if FateOf(checks, e).DeadLetter? || FateOf(checks, e).Publish? { MessageGoesOut(checks, e); }
    hide RejectMessages, TenantSlug, GoesOutAs, Valid;
    forall list ensures Ids(d.result, list) + [] == Ids(d.result, list) {}
  }

  lemma FateRaises(checks: Checks, e: Envelope)
    ensures FateOf(checks, e).Abort? <==> Raises(checks, e)
  {
    hide RejectMessages, TenantSlug;
  }

  lemma SettledNext(checks: Checks, batch: seq<Envelope>, outcomes: seq<PublishOutcome>, n: nat, id: string)
    requires n < |batch| <= |outcomes|
    ensures Settled(checks, batch, outcomes, n, id) <==>
              || (batch[n].eventId == id && (Withheld(checks, batch[n]) || outcomes[n].Accepted?))
              || Settled(checks, batch, outcomes, n + 1, id)
  {
    hide Withheld;
  }

  lemma OneMoreSent(checks: Checks, e: Envelope, m: Message, rows: seq<Envelope>, sent: seq<Message>)
    requires GoesOutAs(checks, e, m) && GoOutAs(checks, rows, sent)
    ensures GoOutAs(checks, [e] + rows, [m] + sent)
  {
    hide GoesOutAs;
  }

  ghost predicate NoneRaises(checks: Checks, batch: seq<Envelope>, n: nat) {
    forall k :: n <= k < |batch| ==> !Raises(checks, batch[k])
  }

  /** One turn of a drain on which no check raises. */
  lemma NextRow(checks: Checks, d: Drained, batch: seq<Envelope>, outcomes: seq<PublishOutcome>, n: nat)
    requires n < |batch| <= |outcomes| && NoneRaises(checks, batch, n)
    ensures !FateOf(checks, batch[n]).Abort? && NoneRaises(checks, batch, n + 1)
    ensures DrainFrom(checks, d, batch, outcomes, n)
         == DrainFrom(checks, DrainOne(checks, d, batch[n], outcomes[n]), batch, outcomes, n + 1)
  {
    FateRaises(checks, batch[n]);
    hide Raises, FateOf, DrainOne;
  }

  lemma {:induction false} ListsAre(checks: Checks, d: Drained, batch: seq<Envelope>, outcomes: seq<PublishOutcome>,
                                    n: nat, list: List)
    requires n <= |batch| <= |outcomes| && NoneRaises(checks, batch, n)
    ensures DrainFrom(checks, d, batch, outcomes, n).1
    ensures Ids(DrainFrom(checks, d, batch, outcomes, n).0.result, list)
         == Ids(d.result, list) + IdsFor(checks, batch, outcomes, n, list)
    decreases |batch| - n
  {
    hide Belongs, NoneRaises, Ids, FateOf, DrainOne, GoesOutAs;
    if n < |batch| {
      NextRow(checks, d, batch, outcomes, n);
      OneRowDrained(checks, d, batch[n], outcomes[n]);
      hide DrainFrom;
      ListsAre(checks, DrainOne(checks, d, batch[n], outcomes[n]), batch, outcomes, n + 1, list);
      Regroup(Ids(d.result, list), if Belongs(checks, batch[n], outcomes[n], list) then [batch[n].eventId] else [],
              IdsFor(checks, batch, outcomes, n + 1, list));
    } else {
      NothingDrained(checks, d, batch, outcomes);
    }
  }

  lemma {:induction false} MarksAre(checks: Checks, d: Drained, batch: seq<Envelope>, outcomes: seq<PublishOutcome>,
                                    n: nat, id: string)
    requires n <= |batch| <= |outcomes| && NoneRaises(checks, batch, n)
    ensures id in DrainFrom(checks, d, batch, outcomes, n).0.marked <==>
              id in d.marked || Settled(checks, batch, outcomes, n, id)
    decreases |batch| - n
  {
    hide Belongs, NoneRaises, Ids, FateOf, DrainOne, GoesOutAs, Settled, Withheld;
    if n < |batch| {
      NextRow(checks, d, batch, outcomes, n);
      OneRowDrained(checks, d, batch[n], outcomes[n]);
      BelongsToRetried(checks, batch[n], outcomes[n]);
      hide DrainFrom;
      MarksAre(checks, DrainOne(checks, d, batch[n], outcomes[n]), batch, outcomes, n + 1, id);
      SettledNext(checks, batch, outcomes, n, id);
    } else {
      NothingDrained(checks, d, batch, outcomes);
    }
  }

  lemma {:induction false} LogIs(checks: Checks, d: Drained, batch: seq<Envelope>, outcomes: seq<PublishOutcome>,
                                 n: nat) returns (sent: seq<Message>)
    requires n <= |batch| <= |outcomes| && NoneRaises(checks, batch, n)
    ensures DrainFrom(checks, d, batch, outcomes, n).0.log == d.log + sent
    ensures GoOutAs(checks, Taken(checks, batch, outcomes, n), sent)
    decreases |batch| - n
  {
    hide Belongs, NoneRaises, Ids, FateOf, DrainOne, GoesOutAs, GoOutAs, Settled, Withheld;
    sent := [];
    if n < |batch| {
      NextRow(checks, d, batch, outcomes, n);
      var d1 := DrainOne(checks, d, batch[n], outcomes[n]);
      OneRowDrained(checks, d, batch[n], outcomes[n]);
      hide DrainFrom;
      sent := LogIs(checks, d1, batch, outcomes, n + 1);
      var rows := Taken(checks, batch, outcomes, n + 1);
      if !Withheld(checks, batch[n]) && !outcomes[n].Refused? {
        var m :| GoesOutAs(checks, batch[n], m) && d1.log == d.log + [m];
        OneMoreSent(checks, batch[n], m, rows, sent);
        assert d.log + [m] + sent == d.log + ([m] + sent);
        sent := [m] + sent;
      } else {
        assert [] + rows == rows;
      }
    } else {
      NothingDrained(checks, d, batch, outcomes);
    }
  }

  /** A drain on which no check raises goes over every row: each is in its list, in the order of the batch; all but the
      retried are marked; and what the broker took has gone out, in that order, as the checks say. */
  lemma DrainDoes(checks: Checks, d: Drained, batch: seq<Envelope>, outcomes: seq<PublishOutcome>)
      returns (sent: seq<Message>)
    requires |batch| <= |outcomes| && NoneRaises(checks, batch, 0)
    ensures var (after, completed) := DrainFrom(checks, d, batch, outcomes, 0);
            && completed
            && (forall list :: Ids(after.result, list)
                               == Ids(d.result, list) + IdsFor(checks, batch, outcomes, 0, list))
            && (forall id :: id in after.marked <==> id in d.marked || Settled(checks, batch, outcomes, 0, id))
            && after.log == d.log + sent && GoOutAs(checks, Taken(checks, batch, outcomes, 0), sent)
  {
    hide DrainFrom, Settled, Ids, IdsFor, Taken, GoOutAs, NoneRaises;
    sent := LogIs(checks, d, batch, outcomes, 0);
    forall list ensures Ids(DrainFrom(checks, d, batch, outcomes, 0).0.result, list)
                     == Ids(d.result, list) + IdsFor(checks, batch, outcomes, 0, list) {
      ListsAre(checks, d, batch, outcomes, 0, list);
    }
    forall id ensures id in DrainFrom(checks, d, batch, outcomes, 0).0.marked <==>
        id in d.marked || Settled(checks, batch, outcomes, 0, id) {
      MarksAre(checks, d, batch, outcomes, 0, id);
    }
    ListsAre(checks, d, batch, outcomes, 0, Published);
  }

  lemma Regroup(a: seq<string>, b: seq<string>, c: seq<string>)
    ensures a + b + c == a + (b + c)
  {}

  lemma BelongsToRetried(checks: Checks, e: Envelope, outcome: PublishOutcome)
    ensures Belongs(checks, e, outcome, RetriedPending) <==> !(Withheld(checks, e) || outcome.Accepted?)
  {}

  lemma NothingDrained(checks: Checks, d: Drained, batch: seq<Envelope>, outcomes: seq<PublishOutcome>)
    requires |batch| <= |outcomes|
    ensures forall list :: Ids(d.result, list) + IdsFor(checks, batch, outcomes, |batch|, list) == Ids(d.result, list)
    ensures forall id :: !Settled(checks, batch, outcomes, |batch|, id)
    ensures GoOutAs(checks, Taken(checks, batch, outcomes, |batch|), []) && d.log + [] == d.log
  {}

  // ---------------------------------------------------------------- the batch

  /** The row is for this drain: not marked, and the tenant's own if one is asked for. */
  predicate Asked(e: Envelope, published: set<string>, tenant: Option<string>) {
    e.eventId !in published && (tenant.Some? ==> e.context.Tenant? && e.tenantId == tenant)
  }

  /** The entries at these positions, in order, are all the rows asked for. */
  ghost predicate AreAsked(entries: seq<Envelope>, published: set<string>, tenant: Option<string>, batch: seq<Envelope>,
                           positions: seq<int>) {
    && |positions| == |batch|
    && (forall i :: 0 <= i < |positions| ==> 0 <= positions[i] < |entries| && batch[i] == entries[positions[i]])
    && (forall i, j :: 0 <= i < j < |positions| ==> positions[i] < positions[j])
    && (forall k :: 0 <= k < |entries| ==> (k in positions <==> Asked(entries[k], published, tenant)))
  }

  lemma OneMoreEntry(entries: seq<Envelope>, last: Envelope, published: set<string>, tenant: Option<string>,
                     batch: seq<Envelope>, positions: seq<int>)
    requires AreAsked(entries, published, tenant, batch, positions)
    ensures Asked(last, published, tenant) ==>
              AreAsked(entries + [last], published, tenant, batch + [last], positions + [|entries|])
    ensures !Asked(last, published, tenant) ==> AreAsked(entries + [last], published, tenant, batch, positions)
  {
    hide Asked;
    var longer, more := entries + [last], positions + [|entries|];
    assert forall i :: 0 <= i < |positions| ==> positions[i] in positions && 0 <= positions[i] < |entries|;
    forall k | 0 <= k < |longer| ensures (k in more <==> k in positions || k == |entries|) {}
  }

  /** The envelopes a drain is given: the recorded ones not marked, in order, and only a tenant's own if it asks. */
  lemma {:induction false} PendingAre(entries: seq<Envelope>, published: set<string>, tenant: Option<string>)
      returns (positions: seq<int>)
    ensures AreAsked(entries, published, tenant, PendingOf(entries, published, tenant), positions)
  {
    positions := [];
    if entries != [] {
      var init, last := entries[..|entries| - 1], entries[|entries| - 1];
      var earlier := PendingAre(init, published, tenant);
      hide AreAsked;
      OneMoreEntry(init, last, published, tenant, PendingOf(init, published, tenant), earlier);
      assert entries == init + [last];
      positions := if Asked(last, published, tenant) then earlier + [|init|] else earlier;
    }
  }

  // ---------------------------------------------------------------- the steps

  /** What a recording, the begin of a drain, and a crash do to the system: a new event is recorded last; a drain starts
      at the front of its batch; a crash only forgets the drain. */
  lemma StepsAre(checks: Checks, run: seq<Action>, e: Envelope, id: nat, tenant: Option<string>)
    ensures var s := After(checks, run);
            && ((forall x :: x in s.entries ==> x.eventId != e.eventId) ==>
                  After(checks, run + [Record(e)]) == s.(entries := s.entries + [e]))
            && ((exists x :: x in s.entries && x.eventId == e.eventId) ==> After(checks, run + [Record(e)]) == s)
            && (id !in s.drains ==>
                  After(checks, run + [Begin(id, tenant)])
                  == s.(drains := s.drains[id := Drain(PendingOf(s.entries, s.marked, tenant), 0, false)]))
            && After(checks, run + [Crash(id)]) == s.(drains := s.drains - {id})
            && After(checks, []) == Sys([], {}, [], map[])
  {
    AfterOneMore(checks, run, Record(e));
    AfterOneMore(checks, run, Begin(id, tenant));
    AfterOneMore(checks, run, Crash(id));
    hide WorkOn, PendingOf;
  }
}

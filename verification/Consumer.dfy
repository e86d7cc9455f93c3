/** The consumer's deduplication of redelivered envelopes. */
module Consumer {
  import opened Common
  import opened Outbox

  const SYSTEM_SCOPE_TENANT_ID := "saena-system-scope"

  /** The namespace a key is remembered in; none when the tenant id is refused. */
  function DedupScope(e: Envelope): Option<string> {
    if e.context == Tenant && e.tenantId.Some? && e.tenantId.value != "" then
      if TenantSlug(e.tenantId.value) then Some(e.tenantId.value) else None
    else Some(SYSTEM_SCOPE_TENANT_ID)
  }

  /** One delivery: the envelope, and whether the handler would raise if it were run. */
  datatype Delivery = Delivery(envelope: Envelope, handlerRaises: bool)

  type Marks = map<string, set<string>>

  predicate Seen(marks: Marks, scope: string, key: string) {
    scope in marks && key in marks[scope]
  }

  function Mark(marks: Marks, scope: string, key: string): (after: Marks)
    ensures forall s, k :: Seen(after, s, k) <==> Seen(marks, s, k) || (s == scope && k == key)
  {
    marks[scope := (if scope in marks then marks[scope] else {}) + {key}]
  }

  /** The store, and the envelopes whose handler has completed. */
  datatype Consumed = Consumed(marks: Marks, handled: seq<Envelope>)

  datatype Ending = Ran | Skipped | Raised

  function Deliver(c: Consumed, d: Delivery): (Consumed, Ending) {
    match DedupScope(d.envelope)
    case None => (c, Raised)
    case Some(scope) =>
      if Seen(c.marks, scope, d.envelope.idempotencyKey) then (c, Skipped)
      else if d.handlerRaises then (c, Raised)
      else (Consumed(Mark(c.marks, scope, d.envelope.idempotencyKey), c.handled + [d.envelope]), Ran)
  }

  function ProcessAll(ds: seq<Delivery>): Consumed {
    if ds == [] then Consumed(map[], []) else Deliver(ProcessAll(ds[..|ds| - 1]), ds[|ds| - 1]).0
  }

  class IdempotentConsumer {
    var marks: Marks
    var handled: seq<Envelope>

    constructor ()
      ensures marks == map[] && handled == []
    {
      marks, handled := map[], [];
    }

    /** `process`; the handler's completion is the envelope appended to `handled`. */
    method Process(d: Delivery) returns (ending: Ending)
      modifies this
      ensures (Consumed(marks, handled), ending) == Deliver(Consumed(old(marks), old(handled)), d)
    {
      var key := d.envelope.idempotencyKey;
      var scope := DedupScope(d.envelope);
      if scope.None? {
        return Raised;
      }
      if Seen(marks, scope.value, key) {
        return Skipped;
      }
      if d.handlerRaises {
        return Raised;
      }
      handled := handled + [d.envelope];
      marks := Mark(marks, scope.value, key);
      ending := Ran;
    }
  }

  predicate KeyedBy(e: Envelope, scope: string, key: string) {
    DedupScope(e) == Some(scope) && e.idempotencyKey == key
  }

  function Completions(es: seq<Envelope>, scope: string, key: string): nat {
    if es == [] then 0 else
      Completions(es[..|es| - 1], scope, key) + (if KeyedBy(es[|es| - 1], scope, key) then 1 else 0)
  }

  /** Some delivery of the key ran into a handler that does not raise. */
  ghost predicate DeliveredWell(ds: seq<Delivery>, scope: string, key: string) {
    exists d :: d in ds && KeyedBy(d.envelope, scope, key) && !d.handlerRaises
  }

  /** Whatever the order and multiplicity of deliveries, the handler completes exactly once for each (scope, key)
      delivered with at least one attempt that does not raise, and never for any other. */
  lemma {:induction false} HandledExactlyOnce(ds: seq<Delivery>, scope: string, key: string)
    ensures Completions(ProcessAll(ds).handled, scope, key) == if DeliveredWell(ds, scope, key) then 1 else 0
    ensures Seen(ProcessAll(ds).marks, scope, key) <==> DeliveredWell(ds, scope, key)
  {
    if ds != [] {
      var earlier, d := ds[..|ds| - 1], ds[|ds| - 1];
      HandledExactlyOnce(earlier, scope, key);
      assert ds == earlier + [d];
      OneMoreDelivery(earlier, d, scope, key);
      hide DeliveredWell, Completions, DedupScope, Seen;
      DeliveryCounts(ProcessAll(earlier), d, scope, key);
      hide Deliver, KeyedBy;
    } else {
      hide KeyedBy;
    }
  }

  /** One delivery adds a completion and a mark exactly when it is of the key, not seen yet, and does not raise. */
  lemma DeliveryCounts(c: Consumed, d: Delivery, scope: string, key: string)
    ensures var runs := KeyedBy(d.envelope, scope, key) && !Seen(c.marks, scope, key) && !d.handlerRaises;
            var after := Deliver(c, d).0;
            && Completions(after.handled, scope, key) == Completions(c.handled, scope, key) + (if runs then 1 else 0)
            && (Seen(after.marks, scope, key) <==> Seen(c.marks, scope, key) || runs)
  {
    OneMoreCompletion(c.handled, d.envelope, scope, key);
    hide DedupScope, Completions, Seen;
  }

  lemma OneMoreDelivery(ds: seq<Delivery>, d: Delivery, scope: string, key: string)
    ensures DeliveredWell(ds + [d], scope, key) <==>
              DeliveredWell(ds, scope, key) || (KeyedBy(d.envelope, scope, key) && !d.handlerRaises)
  {
    hide KeyedBy;
    assert forall x :: x in ds + [d] <==> x in ds || x == d;
  }

  lemma OneMoreCompletion(es: seq<Envelope>, e: Envelope, scope: string, key: string)
    ensures Completions(es + [e], scope, key) == Completions(es, scope, key) + (if KeyedBy(e, scope, key) then 1 else 0)
  {
    assert (es + [e])[..|es|] == es;
  }

  /** The tenant an envelope belongs to by name, if it does. */
  function OwnerName(e: Envelope): Option<string> {
    if e.context.Tenant? && e.tenantId.Some? && |e.tenantId.value| > 0 then e.tenantId else None
  }

  /** What a delivery comes to after any deliveries before it: refused for a malformed tenant id; skipped if one
      before it in its scope and key went well; and else run, to completion unless its handler raises. The scope is
      the tenant's name, or the system's. */
  lemma DeliveryComesTo(ds: seq<Delivery>, d: Delivery)
    ensures var e := d.envelope;
            var scope := match OwnerName(e) case Some(name) => name case None => "saena-system-scope";
            var refused := OwnerName(e).Some? && !TenantSlug(scope);
            var before := ProcessAll(ds);
            var (after, ending) := Deliver(before, d);
            var done := DeliveredWell(ds, scope, e.idempotencyKey);
            && (DedupScope(e) == if refused then None else Some(scope))
            && (ending == Raised <==> refused || (!done && d.handlerRaises))
            && (ending == Skipped <==> !refused && done)
            && (ending == Ran <==> !refused && !done && !d.handlerRaises)
            && after.handled == (if ending == Ran then before.handled + [e] else before.handled)
  {
    var scope := match OwnerName(d.envelope) case Some(name) => name case None => "saena-system-scope";
    HandledExactlyOnce(ds, scope, d.envelope.idempotencyKey);
    hide TenantSlug, ProcessAll, DeliveredWell, Completions;
  }

  /** The system scope is a namespace apart from a tenant's exactly when that tenant is not called
      `saena-system-scope`. */
  lemma SystemScopeIsApart(e: Envelope, system: Envelope)
    requires e.context == Tenant && e.tenantId.Some? && TenantSlug(e.tenantId.value)
    requires system.context == System
    ensures DedupScope(e) != DedupScope(system) <==> e.tenantId != Some(SYSTEM_SCOPE_TENANT_ID)
  {}

  lemma {:induction false} HandledWereDelivered(ds: seq<Delivery>)
    ensures forall e :: e in ProcessAll(ds).handled ==> exists d :: d in ds && d.envelope == e
  {
    if ds != [] {
      var earlier, d := ds[..|ds| - 1], ds[|ds| - 1];
      HandledWereDelivered(earlier);
      forall e | e in ProcessAll(ds).handled ensures exists x :: x in ds && x.envelope == e {
        if e in ProcessAll(earlier).handled {
          var x :| x in earlier && x.envelope == e;
          assert x in ds;
        } else {
          assert e == d.envelope;
        }
      }
    }
  }

  /** Outbox, topics and consumer together: over every run of drains with failures and crashes, and every sequence of
      deliveries of what is on the topics, a recorded envelope is handled at most once per key, exactly once if some
      delivery of it does not raise, and a suppressed aggregate is never handled. */
  lemma EndToEnd(checks: Checks, run: seq<Action>, ds: seq<Delivery>, scope: string, key: string)
    requires forall d :: d in ds ==> exists m :: m in After(checks, run).log && m.envelope == d.envelope
    ensures Completions(ProcessAll(ds).handled, scope, key) == if DeliveredWell(ds, scope, key) then 1 else 0
    ensures forall e :: e in ProcessAll(ds).handled ==>
              e in After(checks, run).entries && !(e.context == Aggregate && checks.guard(e) != Allowed)
  {
    HandledExactlyOnce(ds, scope, key);
    HandledWereDelivered(ds);
    forall e | e in ProcessAll(ds).handled
      ensures e in After(checks, run).entries && !(e.context == Aggregate && checks.guard(e) != Allowed)
    {
      var d :| d in ds && d.envelope == e;
      var m :| m in After(checks, run).log && m.envelope == d.envelope;
      SuppressedIsNeverPublished(checks, run, m);
    }
  }
}

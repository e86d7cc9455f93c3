/** Tenants of the vector store do not see one another: a run seen by one tenant is the run of its own calls. */
module VectorTenants {
  import opened Common
  import opened VectorStore

  function OwnKeys(keys: seq<Key>, tenant: string): seq<Key> {
    if keys == [] then []
    else (if keys[0].tenant == tenant then [keys[0]] else []) + OwnKeys(keys[1..], tenant)
  }

  function OwnVersions(versions: map<Key, seq<VectorRecord>>, tenant: string): map<Key, seq<VectorRecord>> {
    map key | key in versions && key.tenant == tenant :: versions[key]
  }

  function OwnDimensions(dimensions: map<Space, int>, tenant: string): map<Space, int> {
    map space | space in dimensions && space.tenant == tenant :: dimensions[space]
  }

  /** The part of the store that belongs to one tenant. */
  function View(s: State, tenant: string): State {
    State(OwnKeys(s.keys, tenant), OwnVersions(s.versions, tenant), OwnDimensions(s.dimensions, tenant))
  }

  lemma OwnKeysHead(keys: seq<Key>, tenant: string)
    requires keys != []
    ensures OwnKeys(keys, tenant) == if keys[0].tenant == tenant then [keys[0]] + OwnKeys(keys[1..], tenant)
            else OwnKeys(keys[1..], tenant)
    ensures keys[0].tenant == tenant ==> OwnKeys(keys, tenant)[1..] == OwnKeys(keys[1..], tenant)
  {}

  lemma WithoutHead(keys: seq<Key>, key: Key)
    requires keys != []
    ensures Without(keys, key) == if keys[0] == key then Without(keys[1..], key)
            else [keys[0]] + Without(keys[1..], key)
    ensures keys[0] != key ==> Without(keys, key)[1..] == Without(keys[1..], key)
  {}

  lemma {:induction false} OwnKeysSnoc(keys: seq<Key>, key: Key, tenant: string)
    ensures OwnKeys(keys + [key], tenant) == OwnKeys(keys, tenant) + (if key.tenant == tenant then [key] else [])
  {
    if keys == [] {
      assert [] + [key] == [key];
      assert [key][1..] == [];
    } else {
      OwnKeysSnoc(keys[1..], key, tenant);
      assert (keys + [key])[1..] == keys[1..] + [key];
    }
  }

  lemma NoKeys(key: Key, tenant: string)
    ensures OwnKeys([], tenant) == [] && Without([], key) == []
  {}

  lemma {:induction false} OwnKeysWithout(keys: seq<Key>, key: Key, tenant: string)
    ensures OwnKeys(Without(keys, key), tenant)
         == (if key.tenant == tenant then Without(OwnKeys(keys, tenant), key) else OwnKeys(keys, tenant))
  {
    hide OwnKeys, Without;
    NoKeys(key, tenant);
    if keys != [] {
      var own := OwnKeys(keys, tenant);
      OwnKeysWithout(keys[1..], key, tenant);
      OwnKeysHead(keys, tenant);
      WithoutHead(keys, key);
      if Without(keys, key) != [] { OwnKeysHead(Without(keys, key), tenant); }
      if own != [] { WithoutHead(own, key); }
    }
  }

  lemma HistoryOfView(s: State, key: Key, tenant: string)
    ensures History(View(s, tenant), key) == if key.tenant == tenant then History(s, key) else []
  {}

  // ------------------------------------------------------------------ upsert

  lemma UpsertOneOwn(s: State, tenant: string, r: VectorRecord)
    ensures match UpsertOne(s, tenant, r)
            case Err(e) => UpsertOne(View(s, tenant), tenant, r) == Err(e)
            case Ok((s1, stored)) => UpsertOne(View(s, tenant), tenant, r) == Ok((View(s1, tenant), stored))
  {
    hide WellFormed, Retired;
    if r.tenantId == tenant {
      var v, s1 := View(s, tenant), Stored(s, r);
      HistoryOfView(s, KeyOf(r), tenant);
      OwnKeysSnoc(s.keys, KeyOf(r), tenant);
      assert Stored(v, r).versions == OwnVersions(s1.versions, tenant);
      assert Stored(v, r).dimensions == OwnDimensions(s1.dimensions, tenant);
      assert Stored(v, r) == View(s1, tenant);
    }
  }

  lemma UpsertOneOther(s: State, other: string, r: VectorRecord, tenant: string)
    requires other != tenant && UpsertOne(s, other, r).Ok?
    ensures View(UpsertOne(s, other, r).value.0, tenant) == View(s, tenant)
  {
    hide WellFormed, Retired;
    var s1 := UpsertOne(s, other, r).value.0;
    OwnKeysSnoc(s.keys, KeyOf(r), tenant);
    assert OwnVersions(s1.versions, tenant) == OwnVersions(s.versions, tenant);
    assert OwnDimensions(s1.dimensions, tenant) == OwnDimensions(s.dimensions, tenant);
  }

  lemma {:induction false} UpsertOwn(s: State, tenant: string, records: seq<VectorRecord>)
    ensures var (s1, r) := UpsertAll(s, tenant, records);
            UpsertAll(View(s, tenant), tenant, records) == (View(s1, tenant), r)
    decreases |records|
  {
    hide UpsertOne, View, WellFormed;
    if records != [] {
      UpsertOneOwn(s, tenant, records[0]);
      if UpsertOne(s, tenant, records[0]).Ok? {
        UpsertOwn(UpsertOne(s, tenant, records[0]).value.0, tenant, records[1..]);
      }
    }
  }

  lemma {:induction false} UpsertOther(s: State, other: string, records: seq<VectorRecord>, tenant: string)
    requires other != tenant
    ensures View(UpsertAll(s, other, records).0, tenant) == View(s, tenant)
    decreases |records|
  {
    hide UpsertOne, View, WellFormed;
    if records != [] && UpsertOne(s, other, records[0]).Ok? {
      UpsertOneOther(s, other, records[0], tenant);
      UpsertOther(UpsertOne(s, other, records[0]).value.0, other, records[1..], tenant);
    }
  }

  // ---------------------------------------------------------- other operations

  lemma {:induction false} CandidatesOwn(s: State, keys: seq<Key>, space: Space)
    ensures Candidates(View(s, space.tenant), OwnKeys(keys, space.tenant), space) == Candidates(s, keys, space)
    decreases |keys|
  {
    hide View, WellFormed;
    if keys != [] {
      var t := space.tenant;
      CandidatesOwn(s, keys[1..], space);
      HistoryOfView(s, keys[0], t);
      OwnKeysHead(keys, t);
      assert [] + Candidates(s, keys[1..], space) == Candidates(s, keys[1..], space);
    }
  }

  lemma {:induction false} DeleteOwn(s: State, space: Space, ids: seq<string>)
    ensures var (s1, n) := DeleteAll(s, space, ids);
            DeleteAll(View(s, space.tenant), space, ids) == (View(s1, space.tenant), n)
    decreases |ids|
  {
    hide WellFormed, OwnKeys, Without;
    if ids != [] {
      var t, key := space.tenant, Key(space.tenant, space.collection, ids[0]);
      var s1 := Dropped(s, key);
      if key in s.versions {
        OwnKeysWithout(s.keys, key, t);
        assert OwnVersions(s1.versions, t) == OwnVersions(s.versions, t) - {key};
        assert View(s1, t) == Dropped(View(s, t), key);
        DeleteOwn(s1, space, ids[1..]);
      } else {
        DeleteOwn(s, space, ids[1..]);
      }
    }
  }

  lemma {:induction false} DeleteOther(s: State, space: Space, ids: seq<string>, tenant: string)
    requires space.tenant != tenant
    ensures View(DeleteAll(s, space, ids).0, tenant) == View(s, tenant)
    decreases |ids|
  {
    hide WellFormed, OwnKeys, Without;
    if ids != [] {
      var key := Key(space.tenant, space.collection, ids[0]);
      var s1 := Dropped(s, key);
      if key in s.versions {
        OwnKeysWithout(s.keys, key, tenant);
        assert OwnVersions(s1.versions, tenant) == OwnVersions(s.versions, tenant);
        DeleteOther(s1, space, ids[1..], tenant);
      } else {
        DeleteOther(s, space, ids[1..], tenant);
      }
    }
  }

  lemma {:induction false} InvalidateOwn(s: State, keys: seq<Key>, space: Space, hash: string,
                                         replacement: Option<string>)
    ensures var (s1, updated) := InvalidateAll(s, keys, space, hash, replacement);
            InvalidateAll(View(s, space.tenant), OwnKeys(keys, space.tenant), space, hash, replacement)
                == (View(s1, space.tenant), updated)
    decreases |keys|
  {
    hide WellFormed, Retired, HasActive;
    if keys != [] {
      var t, key := space.tenant, keys[0];
      HistoryOfView(s, key, t);
      OwnKeysHead(keys, t);
      var s1 := s.(versions := s.versions[key := Retired(History(s, key), replacement)]);
      if IsStale(s, space, hash, key) {
        assert OwnVersions(s1.versions, t) == OwnVersions(s.versions, t)[key := Retired(History(s, key), replacement)];
        InvalidateOwn(s1, keys[1..], space, hash, replacement);
      } else {
        InvalidateOwn(s, keys[1..], space, hash, replacement);
      }
    }
  }

  lemma {:induction false} InvalidateOther(s: State, keys: seq<Key>, space: Space, hash: string,
                                           replacement: Option<string>, tenant: string)
    requires space.tenant != tenant
    ensures View(InvalidateAll(s, keys, space, hash, replacement).0, tenant) == View(s, tenant)
    decreases |keys|
  {
    hide WellFormed, Retired, HasActive, OwnKeys;
    if keys != [] {
      var key := keys[0];
      var s1 := s.(versions := s.versions[key := Retired(History(s, key), replacement)]);
      if IsStale(s, space, hash, key) {
        assert OwnVersions(s1.versions, tenant) == OwnVersions(s.versions, tenant);
        InvalidateOther(s1, keys[1..], space, hash, replacement, tenant);
      } else {
        InvalidateOther(s, keys[1..], space, hash, replacement, tenant);
      }
    }
  }

  // -------------------------------------------------------------- whole runs

  lemma SearchOwn(s: State, tenant: string, collection: string, query: seq<real>, k: int)
    ensures Search(View(s, tenant), tenant, collection, query, k) == Search(s, tenant, collection, query, k)
  {
    hide WellFormed, Candidates, Scored, ByDistance, OwnKeys, FirstK;
    CandidatesOwn(s, s.keys, Space(tenant, collection));
  }

  /** A tenant's own call does on its view what it does on the whole store, with the same answer. */
  lemma StepOwn(s: State, call: Call)
    ensures Step(View(s, call.tenant), call) == (View(Step(s, call).0, call.tenant), Step(s, call).1)
  {
    hide WellFormed, UpsertAll, DeleteAll, InvalidateAll, Search, OwnKeys;
    match call
    case Upsert(tenant, records) => UpsertOwn(s, tenant, records);
    case Find(tenant, collection, query, k) => SearchOwn(s, tenant, collection, query, k);
    case Get(tenant, collection, id) => HistoryOfView(s, Key(tenant, collection, id), tenant);
    case ListVersions(tenant, collection, id) => HistoryOfView(s, Key(tenant, collection, id), tenant);
    case Delete(tenant, collection, ids) => DeleteOwn(s, Space(tenant, collection), ids);
    case Invalidate(tenant, collection, hash, replacement) =>
      InvalidateOwn(s, s.keys, Space(tenant, collection), hash, replacement);
  }

  /** Another tenant's call leaves the view as it was. */
  lemma StepOther(s: State, call: Call, tenant: string)
    requires call.tenant != tenant
    ensures View(Step(s, call).0, tenant) == View(s, tenant)
  {
    hide WellFormed, UpsertAll, DeleteAll, InvalidateAll, Search, View;
    match call
    case Upsert(other, records) => UpsertOther(s, other, records, tenant);
    case Delete(other, collection, ids) => DeleteOther(s, Space(other, collection), ids, tenant);
    case Invalidate(other, collection, hash, replacement) =>
      InvalidateOther(s, s.keys, Space(other, collection), hash, replacement, tenant);
    case _ =>
  }

  function OwnCalls(calls: seq<Call>, tenant: string): seq<Call> {
    if calls == [] then []
    else (if calls[0].tenant == tenant then [calls[0]] else []) + OwnCalls(calls[1..], tenant)
  }

  /** The answers to one tenant's calls, out of the answers to all of them. */
  function OwnAnswers(calls: seq<Call>, answers: seq<Answer>, tenant: string): seq<Answer>
    requires |answers| == |calls|
  {
    if calls == [] then []
    else (if calls[0].tenant == tenant then [answers[0]] else []) + OwnAnswers(calls[1..], answers[1..], tenant)
  }

  lemma {:induction false} OneAnswerEach(s: State, calls: seq<Call>)
    ensures |Run(s, calls).1| == |calls|
    decreases |calls|
  {
    hide Step;
    if calls != [] { OneAnswerEach(Step(s, calls[0]).0, calls[1..]); }
  }

  /** A tenant gets from any run the answers, and the part of the store, that its own calls alone would have given
      it. */
  lemma {:induction false} TenantsDoNotInterfere(s: State, calls: seq<Call>, tenant: string)
    ensures |Run(s, calls).1| == |calls|
    ensures Run(View(s, tenant), OwnCalls(calls, tenant))
         == (View(Run(s, calls).0, tenant), OwnAnswers(calls, Run(s, calls).1, tenant))
    decreases |calls|
  {
    hide Step, View, WellFormed;
    OneAnswerEach(s, calls);
    if calls != [] {
      var s1 := Step(s, calls[0]).0;
      TenantsDoNotInterfere(s1, calls[1..], tenant);
      var own := OwnCalls(calls[1..], tenant);
      assert ([calls[0]] + own)[1..] == own;
      assert Run(s, calls).1[1..] == Run(s1, calls[1..]).1;
      if calls[0].tenant == tenant {
        StepOwn(s, calls[0]);
      } else {
        StepOther(s, calls[0], tenant);
        assert OwnCalls(calls, tenant) == own;
        var answers := OwnAnswers(calls[1..], Run(s1, calls[1..]).1, tenant);
        assert [] + answers == answers;
      }
    }
  }
}

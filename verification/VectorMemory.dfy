/** The in-memory vector store as an object whose two dictionaries are updated in place. */
module VectorMemory {
  import opened Common
  import opened VectorStore
  import opened VectorStoreLaws

  /** A result with some records already collected in front of it. */
  function Prefixed(done: seq<VectorRecord>, r: Result<seq<VectorRecord>, Error>): Result<seq<VectorRecord>, Error> {
    if r.Ok? then Ok(done + r.value) else r
  }

  class InMemoryVectorStore {
    var keys: seq<Key>
    var versions: map<Key, seq<VectorRecord>>
    var dimensions: map<Space, int>

    ghost function Contents(): State
      reads this
    {
      State(keys, versions, dimensions)
    }

    constructor ()
      ensures Contents() == EMPTY && Sound(Contents())
    {
      keys, versions, dimensions := [], map[], map[];
    }

    /** The loop body of `upsert`, for one record. */
    method UpsertRecord(tenant: string, record: VectorRecord) returns (r: Result<VectorRecord, Error>)
      modifies this
      ensures match UpsertOne(old(Contents()), tenant, record)
              case Err(e) => r == Err(e) && Contents() == old(Contents())
              case Ok((s1, stored)) => r == Ok(stored) && Contents() == s1
    {
      if record.tenantId != tenant {
        return Err(TenantIsolation);
      }
      var dimKey := Space(tenant, record.collection);
      if dimKey in dimensions && dimensions[dimKey] != record.embedding.dimension {
        return Err(DimensionMismatch);
      }
      var key := Key(tenant, record.collection, record.recordId);
      if key !in versions {
        keys := keys + [key];
        versions := versions[key := []];
      }
      var history := versions[key];
      if history != [] && !Last(history).superseded {
        var active := Last(history);
        if active.sourceHash == record.sourceHash {
          return Ok(active);
        }
        history := history[..|history| - 1] + [Superseded(active, Some(record.sourceHash))];
      }
      var newActive: VectorRecord := Fresh(record);
      versions := versions[key := history + [newActive]];
      dimensions := dimensions[dimKey := record.embedding.dimension];
      assert versions == Stored(old(Contents()), record).versions;
      r := Ok(newActive);
    }

    method UpsertRecords(tenant: string, records: seq<VectorRecord>) returns (r: Result<seq<VectorRecord>, Error>)
      requires Sound(Contents())
      modifies this
      ensures Sound(Contents())
      ensures (Contents(), RecordsOrError(r)) == Step(old(Contents()), Upsert(tenant, records))
    {
      hide UpsertOne, WellFormed, Sound;
      StepKeeps(Contents(), Upsert(tenant, records));
      if tenant == "" {
        return Err(ValueError);
      }
      var results: seq<VectorRecord> := [];
      ghost var goal := UpsertAll(Contents(), tenant, records);
      NothingYet(goal.1);
      assert records[0..] == records;
      var i := 0;
      while i < |records|
        invariant 0 <= i <= |records|
        invariant goal.0 == UpsertAll(Contents(), tenant, records[i..]).0
        invariant goal.1 == Prefixed(results, UpsertAll(Contents(), tenant, records[i..]).1)
      {
        hide UpsertAll;
        UpsertNext(Contents(), tenant, records, i, results);
        var stored := UpsertRecord(tenant, records[i]);
        if stored.Err? {
          return Err(stored.error);
        }
        results := results + [stored.value];
        i := i + 1;
      }
      assert results + [] == results;
      r := Ok(results);
    }

    method CandidatesIn(tenant: string, collection: string) returns (candidates: seq<VectorRecord>)
      requires Sound(Contents())
      ensures candidates == Candidates(Contents(), keys, Space(tenant, collection))
      ensures forall c :: c in candidates ==>
                            Space(tenant, collection) in dimensions
                            && |c.vector| == dimensions[Space(tenant, collection)]
    {
      hide Sound, WellFormed, Candidates;
      ghost var s := Contents();
      ghost var space := Space(tenant, collection);
      candidates := [];
      var i := 0;
      assert keys[0..] == keys;
      while i < |keys|
        invariant 0 <= i <= |keys|
        invariant Candidates(s, keys, space) == candidates + Candidates(s, keys[i..], space)
        invariant forall c :: c in candidates ==> space in dimensions && |c.vector| == dimensions[space]
      {
        var key := keys[i];
        CandidatesNext(s, keys, i, space, candidates);
        LastFits(s, key);
        var history := versions[key];
        if key.tenant == tenant && key.collection == collection && history != [] && !Last(history).superseded {
          candidates := candidates + [Last(history)];
        }
        i := i + 1;
      }
      NoMoreCandidates(s, keys, space, candidates);
    }

    method Nearest(tenant: string, collection: string, query: seq<real>, k: int) returns (r: Result<seq<Hit>, Error>)
      requires Sound(Contents())
      ensures HitsOrError(r) == Step(Contents(), Find(tenant, collection, query, k)).1
    {
      hide Sound, ByDistance, SquaredDistance, Candidates;
      if tenant == "" || k <= 0 {
        return Err(ValueError);
      }
      var space := Space(tenant, collection);
      if space in dimensions && |query| != dimensions[space] {
        return Err(DimensionMismatch);
      }
      var candidates := CandidatesIn(tenant, collection);
      var scored: seq<Hit> := [];
      var i := 0;
      assert candidates[0..] == candidates;
      NothingScored(Scored(query, candidates));
      while i < |candidates|
        invariant 0 <= i <= |candidates|
        invariant Rescored(scored, Scored(query, candidates[i..])) == Scored(query, candidates)
      {
        var rec := candidates[i];
        assert candidates[i..][1..] == candidates[i + 1..];
        var hit := Hit(rec, SquaredDistance(query, rec.vector));
        ScoreNext(scored, hit, Scored(query, candidates[i + 1..]));
        scored := scored + [hit];
        i := i + 1;
      }
      assert scored + [] == scored;
      r := Ok(FirstK(ByDistance(scored), k));
    }

    method GetRecord(tenant: string, collection: string, id: string) returns (r: Result<VectorRecord, Error>)
      ensures (if r.Ok? then Records([r.value]) else Raised(r.error)) == Step(Contents(), Get(tenant, collection, id)).1
    {
      var found := VersionsOf(tenant, collection, id);
      if found.Err? {
        return Err(found.error);
      }
      r := if found.value == [] then Err(NotFound) else Ok(Last(found.value));
    }

    method VersionsOf(tenant: string, collection: string, id: string) returns (r: Result<seq<VectorRecord>, Error>)
      ensures RecordsOrError(r) == Step(Contents(), ListVersions(tenant, collection, id)).1
    {
      if tenant == "" {
        return Err(ValueError);
      }
      var key := Key(tenant, collection, id);
      r := Ok(if key in versions then versions[key] else []);
    }

    method DeleteRecords(tenant: string, collection: string, ids: seq<string>) returns (r: Result<nat, Error>)
      requires Sound(Contents())
      modifies this
      ensures Sound(Contents())
      ensures (Contents(), if r.Ok? then Count(r.value) else Raised(r.error))
              == Step(old(Contents()), Delete(tenant, collection, ids))
    {
      hide Sound;
      StepKeeps(Contents(), Delete(tenant, collection, ids));
      if tenant == "" {
        return Err(ValueError);
      }
      var deleted: nat := 0;
      var space := Space(tenant, collection);
      ghost var goal := DeleteAll(Contents(), space, ids);
      var i := 0;
      assert ids[0..] == ids;
      while i < |ids|
        invariant 0 <= i <= |ids|
        invariant goal == (DeleteAll(Contents(), space, ids[i..]).0, deleted + DeleteAll(Contents(), space, ids[i..]).1)
      {
        var key := Key(tenant, collection, ids[i]);
        assert ids[i..][1..] == ids[i + 1..];
        if key in versions {
          keys := Without(keys, key);
          versions := versions - {key};
          deleted := deleted + 1;
        }
        i := i + 1;
      }
      r := Ok(deleted);
    }

    method InvalidateSnapshot(tenant: string, collection: string, hash: string, replacement: Option<string>)
        returns (r: Result<seq<VectorRecord>, Error>)
      requires Sound(Contents())
      modifies this`versions
      ensures Sound(Contents())
      ensures (Contents(), RecordsOrError(r)) == Step(old(Contents()),
                                                      Invalidate(tenant, collection, hash, replacement))
    {
      hide Sound;
      StepKeeps(Contents(), Invalidate(tenant, collection, hash, replacement));
      KeysAreFiled(Contents());
      if tenant == "" {
        return Err(ValueError);
      }
      var updated: seq<VectorRecord> := [];
      var space := Space(tenant, collection);
      ghost var goal := InvalidateAll(Contents(), keys, space, hash, replacement);
      var i := 0;
      assert keys[0..] == keys && goal.1 == [] + goal.1;
      while i < |keys|
        invariant 0 <= i <= |keys| && keys == old(keys) && dimensions == old(dimensions)
        invariant forall key :: key in keys ==> key in versions
        invariant goal == (InvalidateAll(Contents(), keys[i..], space, hash, replacement).0,
                           updated + InvalidateAll(Contents(), keys[i..], space, hash, replacement).1)
      {
        hide InvalidateAll, WellFormed;
        var key := keys[i];
        ghost var before := Contents();
        InvalidateNext(before, keys, i, space, hash, replacement, updated);
        var history := versions[key];
        if key.tenant == tenant && key.collection == collection && history != [] {
          var active := Last(history);
          if !active.superseded && active.sourceHash == hash {
            var newActive := Superseded(active, replacement);
            versions := versions[key := history[..|history| - 1] + [newActive]];
            assert Contents() == before.(versions := versions);
            updated := updated + [newActive];
          }
        }
        i := i + 1;
      }
      assert updated + [] == updated;
      r := Ok(updated);
    }
  }

  function Rescored(done: seq<Hit>, rest: Option<seq<Hit>>): Option<seq<Hit>> {
    if rest.Some? then Some(done + rest.value) else None
  }

  lemma ScoreNext(done: seq<Hit>, hit: Hit, rest: Option<seq<Hit>>)
    ensures Rescored(done + [hit], rest) == Rescored(done, if rest.Some? then Some([hit] + rest.value) else None)
  {
    if rest.Some? { assert done + [hit] + rest.value == done + ([hit] + rest.value); }
  }

  lemma NothingYet(r: Result<seq<VectorRecord>, Error>)
    ensures Prefixed([], r) == r
  {
    if r.Ok? { assert [] + r.value == r.value; }
  }

  lemma NothingScored(r: Option<seq<Hit>>)
    ensures Rescored([], r) == r
  {
    if r.Some? { assert [] + r.value == r.value; }
  }

  lemma CandidatesNext(s: State, keys: seq<Key>, i: nat, space: Space, done: seq<VectorRecord>)
    requires i < |keys|
    ensures done + Candidates(s, keys[i..], space)
         == (if IsCandidate(s, space, keys[i]) then done + [Last(History(s, keys[i]))] else done)
             + Candidates(s, keys[i + 1..], space)
  {
    assert keys[i..][1..] == keys[i + 1..];
  }

  lemma NoMoreCandidates(s: State, keys: seq<Key>, space: Space, done: seq<VectorRecord>)
    ensures done + Candidates(s, keys[|keys|..], space) == done
  {}

  lemma LastFits(s: State, key: Key)
    requires Sound(s) && key in s.keys
    ensures key in s.versions && s.versions[key] != []
    ensures Space(key.tenant, key.collection) in s.dimensions
    ensures |Last(s.versions[key]).vector| == s.dimensions[Space(key.tenant, key.collection)]
  {
    assert KeyHolds(s, key);
  }

  lemma InvalidateNext(s: State, keys: seq<Key>, i: nat, space: Space, hash: string, replacement: Option<string>,
                       done: seq<VectorRecord>)
    requires i < |keys|
    ensures var (s0, u0) := InvalidateAll(s, keys[i..], space, hash, replacement);
            if IsStale(s, space, hash, keys[i]) then
              var history := History(s, keys[i]);
              var (s1, u1) := InvalidateAll(s.(versions := s.versions[keys[i] := Retired(history, replacement)]),
                                            keys[i + 1..], space, hash, replacement);
              s0 == s1 && done + u0 == (done + [Superseded(Last(history), replacement)]) + u1
            else
              (s0, u0) == InvalidateAll(s, keys[i + 1..], space, hash, replacement)
  {
    assert keys[i..][1..] == keys[i + 1..];
  }

  lemma KeysAreFiled(s: State)
    requires Sound(s)
    ensures forall key :: key in s.keys ==> key in s.versions
  {}

  lemma UpsertNext(s: State, tenant: string, records: seq<VectorRecord>, i: nat, done: seq<VectorRecord>)
    requires i < |records|
    ensures var (s0, r0) := UpsertAll(s, tenant, records[i..]);
            match UpsertOne(s, tenant, records[i])
            case Err(e) => s0 == s && Prefixed(done, r0) == Err(e)
            case Ok((s1, stored)) =>
              var (s2, r2) := UpsertAll(s1, tenant, records[i + 1..]);
              s0 == s2 && Prefixed(done, r0) == Prefixed(done + [stored], r2)
  {
    hide UpsertOne;
    assert records[i..][1..] == records[i + 1..];
    if UpsertOne(s, tenant, records[i]).Ok? {
      var (s1, stored) := UpsertOne(s, tenant, records[i]).value;
      var r2 := UpsertAll(s1, tenant, records[i + 1..]).1;
      if r2.Ok? { assert done + ([stored] + r2.value) == (done + [stored]) + r2.value; }
    }
  }
}
